/** The part of `std::stringstream` that the label loader uses: formatted
    extraction of a whitespace-delimited word (`stream >> std::string`) and of
    a single character (`stream >> unsigned char`), with the stream's state
    bits folded into one `good` flag. Once an extraction fails or reaches the
    end of the text, every later extraction fails and leaves its target as it
    was. */
module LineStream {
  import opened Wrappers
  import Decimal

  /** `isspace` in the "C" locale. */
  predicate IsSpace(ch: char) {
    ch == ' ' || ch == '\t' || ch == '\n' || ch == '\U{0B}' || ch == '\U{0C}' || ch == '\r'
  }

  /** A string stream over `text`, positioned at `pos`; `good` is false once
      eofbit or failbit has been set. */
  datatype Stream = Stream(text: string, pos: nat, good: bool) {
    ghost predicate Valid() {
      pos <= |text|
    }
  }

  /** A fresh stream over a line, as `std::stringstream stream(line)` makes it. */
  function Open(line: string): (s: Stream)
    ensures s.Valid() && s.good && s.text == line && s.pos == 0
  {
    Stream(line, 0, true)
  }

  // ----- Reference view of a line: its words and its non-space characters -----

  /** The non-whitespace characters of `s`, in order. */
  function NonSpace(s: string): string {
    if s == [] then [] else (if IsSpace(s[0]) then [] else [s[0]]) + NonSpace(s[1..])
  }

  /** The maximal run of non-whitespace characters at the front of `s`. */
  function TakeWord(s: string): string {
    if s == [] || IsSpace(s[0]) then [] else [s[0]] + TakeWord(s[1..])
  }

  /** What follows that run. */
  function DropWord(s: string): string {
    if s == [] || IsSpace(s[0]) then s else DropWord(s[1..])
  }

  /** The first whitespace-delimited word of `s` ("" if there is none). */
  function FirstWord(s: string): string {
    if s == [] then [] else if IsSpace(s[0]) then FirstWord(s[1..]) else TakeWord(s)
  }

  /** The text after the first word of `s`. */
  function AfterFirstWord(s: string): string {
    if s == [] then [] else if IsSpace(s[0]) then AfterFirstWord(s[1..]) else DropWord(s)
  }

  // ----- Scanning positions -----

  /** The first position at or after `i` that holds no whitespace. */
  function SkipSpace(text: string, i: nat): (j: nat)
    requires i <= |text|
    ensures i <= j <= |text|
    ensures forall k :: i <= k < j ==> IsSpace(text[k])
    ensures j < |text| ==> !IsSpace(text[j])
    decreases |text| - i
  {
    if i < |text| && IsSpace(text[i]) then SkipSpace(text, i + 1) else i
  }

  /** The first position at or after `i` that holds whitespace. */
  function WordEnd(text: string, i: nat): (j: nat)
    requires i <= |text|
    ensures i <= j <= |text|
    ensures forall k :: i <= k < j ==> !IsSpace(text[k])
    ensures j < |text| ==> IsSpace(text[j])
    decreases |text| - i
  {
    if i < |text| && !IsSpace(text[i]) then WordEnd(text, i + 1) else i
  }

  /** The first position at or after `i` that holds no decimal digit. */
  function DigitEnd(text: string, i: nat): (j: nat)
    requires i <= |text|
    ensures i <= j <= |text|
    ensures Decimal.AllDigits(text[i..j])
    ensures j < |text| ==> !Decimal.IsDigit(text[j])
    decreases |text| - i
  {
    if i < |text| && Decimal.IsDigit(text[i]) then DigitEnd(text, i + 1) else i
  }

  // ----- Formatted extraction -----

  /** `stream >> word` for a `std::string` target. The sentry skips leading
      whitespace; reaching the end there fails and leaves `target` unchanged.
      Otherwise the word is read up to the next whitespace, and reaching the
      end of the text while reading sets eofbit. */
  function ExtractWord(s: Stream, target: string): (r: (Stream, string))
    requires s.Valid()
    ensures r.0.Valid() && r.0.text == s.text
    ensures !s.good ==> r == (s, target)
    ensures s.good && FirstWord(s.text[s.pos..]) == [] ==> !r.0.good && r.1 == target
    ensures s.good && FirstWord(s.text[s.pos..]) != [] ==> r.1 == FirstWord(s.text[s.pos..])
    ensures s.good && FirstWord(s.text[s.pos..]) != [] ==>
      r.0.good == (AfterFirstWord(s.text[s.pos..]) != [])
    ensures s.good && r.0.good ==> s.text[r.0.pos..] == AfterFirstWord(s.text[s.pos..])
    ensures s.good && !r.0.good ==> NonSpace(AfterFirstWord(s.text[s.pos..])) == []
  {
    if !s.good then (s, target)
    else
      var p := SkipSpace(s.text, s.pos);
      SkipSpaceWords(s.text, s.pos);
      if p == |s.text| then (Stream(s.text, p, false), target)
      else
        var q := WordEnd(s.text, p);
        WordEndWords(s.text, p);
        (Stream(s.text, q, q < |s.text|), s.text[p..q])
  }

  /** `stream >> ch` for an `unsigned char` target: the sentry skips
      whitespace, then exactly one character is taken, converted to `uchar`.
      Reaching the end while skipping fails and leaves `target` unchanged. */
  function ExtractChar(s: Stream, target: Byte): (r: (Stream, Byte))
    requires s.Valid()
    ensures r.0.Valid() && r.0.text == s.text
    ensures !s.good ==> r == (s, target)
    ensures s.good && NonSpace(s.text[s.pos..]) == [] ==> !r.0.good && r.1 == target
    ensures s.good && NonSpace(s.text[s.pos..]) != [] ==>
      r.0.good &&
      r.1 == UChar(NonSpace(s.text[s.pos..])[0] as int) &&
      NonSpace(s.text[r.0.pos..]) == NonSpace(s.text[s.pos..])[1..]
  {
    if !s.good then (s, target)
    else
      var p := SkipSpace(s.text, s.pos);
      SkipSpaceNonSpace(s.text, s.pos);
      if p == |s.text| then (Stream(s.text, p, false), target)
      else
        assert s.text[p..] == [s.text[p]] + s.text[p + 1..];
        (Stream(s.text, p + 1, true), UChar(s.text[p] as int))
  }

  /** Extraction of a decimal number in 0..255 into a byte: the sentry skips
      whitespace, then the maximal run of digits is read; no digit, or a value
      above 255, fails and leaves `target` unchanged. */
  function ExtractDecimalByte(s: Stream, target: Byte): (r: (Stream, Byte))
    requires s.Valid()
    ensures r.0.Valid() && r.0.text == s.text
    ensures !s.good ==> r == (s, target)
    ensures r.0.good ==> s.good && s.pos < r.0.pos
  {
    if !s.good then (s, target)
    else
      var p := SkipSpace(s.text, s.pos);
      if p == |s.text| then (Stream(s.text, p, false), target)
      else
        var q := DigitEnd(s.text, p);
        if q == p || Decimal.ValueOf(s.text[p..q]) > 255 then (Stream(s.text, q, false), target)
        else (Stream(s.text, q, q < |s.text|), Decimal.ValueOf(s.text[p..q]))
  }

  // ----- Lemmas tying positions to the reference view -----

  lemma {:induction false} SkipSpaceNonSpace(text: string, i: nat)
    requires i <= |text|
    ensures NonSpace(text[i..]) == NonSpace(text[SkipSpace(text, i)..])
    decreases |text| - i
  {
    if i < |text| && IsSpace(text[i]) {
      assert text[i..][1..] == text[i + 1..];
      SkipSpaceNonSpace(text, i + 1);
    }
  }

  lemma {:induction false} SkipSpaceWords(text: string, i: nat)
    requires i <= |text|
    ensures FirstWord(text[i..]) == FirstWord(text[SkipSpace(text, i)..])
    ensures AfterFirstWord(text[i..]) == AfterFirstWord(text[SkipSpace(text, i)..])
    decreases |text| - i
  {
    if i < |text| && IsSpace(text[i]) {
      assert text[i..][1..] == text[i + 1..];
      SkipSpaceWords(text, i + 1);
    }
  }

  /** From a non-space character, the first word runs to `WordEnd`, and
      nothing non-space remains when that is the end of the text. */
  lemma WordEndWords(text: string, i: nat)
    requires i < |text| && !IsSpace(text[i])
    ensures FirstWord(text[i..]) == text[i..WordEnd(text, i)] != []
    ensures AfterFirstWord(text[i..]) == text[WordEnd(text, i)..]
  {
    TakeDropWord(text, i);
  }

  lemma {:induction false} TakeDropWord(text: string, i: nat)
    requires i <= |text|
    ensures TakeWord(text[i..]) == text[i..WordEnd(text, i)]
    ensures DropWord(text[i..]) == text[WordEnd(text, i)..]
    decreases |text| - i
  {
    if i < |text| && !IsSpace(text[i]) {
      assert text[i..][1..] == text[i + 1..];
      TakeDropWord(text, i + 1);
    }
  }
}
