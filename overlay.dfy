/** The text overlays built from the frame's data: the names of the labels
    present (source/main.cpp:177-188) and the resolution string
    (source/main.cpp:200). */
module Overlay {
  import opened LabelLine
  import Decimal

  // ----- Ordered iteration over std::set<size_t> -----

  /** The elements of `s` in ascending order, the order in which a range-for
      over a `std::set` visits them. */
  ghost function Ascending(s: set<nat>): seq<nat>
    decreases |s|
  {
    if s == {} then [] else [Min(s)] + Ascending(s - {Min(s)})
  }

  /** `m` is the least element of `s`. */
  predicate IsLeast(m: nat, s: set<nat>) {
    m in s && forall y :: y in s ==> m <= y
  }

  /** The least element of a non-empty set: pick any element and compare
      it with the least of the others. */
  ghost function Min(s: set<nat>): (m: nat)
    requires s != {}
    ensures IsLeast(m, s)
    decreases |s|
  {
    var x :| x in s;
    var t := s - {x};
    if t == {} then
      assert forall y :: y in s ==> y == x by {
        forall y | y in s ensures y == x {
          assert y !in t;
        }
      }
      x
    else
      var least := Min(t);
      assert forall y :: y in s && y != x ==> y in t;
      if x < least then x else least
  }

  /** `Ascending(s)` has one entry per element of `s`. */
  lemma {:induction false} AscendingLength(s: set<nat>)
    ensures |Ascending(s)| == |s|
    decreases |s|
  {
    if s != {} {
      var m := Min(s);
      AscendingLength(s - {m});
      assert |s - {m}| == |s| - 1;
    }
  }

  /** `Ascending(s)` lists exactly the elements of `s`. */
  lemma {:induction false} AscendingMembers(s: set<nat>)
    ensures forall x :: x in Ascending(s) <==> x in s
    decreases |s|
  {
    if s != {} {
      var m := Min(s);
      var t := Ascending(s - {m});
      assert Ascending(s) == [m] + t;
      AscendingMembers(s - {m});
      forall x ensures x in Ascending(s) <==> x in s {
        if x != m {
          assert x in Ascending(s) <==> x in t;
        }
      }
    }
  }

  /** `Ascending(s)` is strictly increasing. */
  lemma {:induction false} AscendingSorted(s: set<nat>)
    ensures forall i, j :: 0 <= i < j < |Ascending(s)| ==> Ascending(s)[i] < Ascending(s)[j]
    decreases |s|
  {
    if s != {} {
      var m := Min(s);
      var t := Ascending(s - {m});
      var r := [m] + t;
      assert Ascending(s) == r;
      AscendingSorted(s - {m});
      AscendingMembers(s - {m});
      LeastBelowRest(s, m, t);
      forall i, j | 0 <= i < j < |r| ensures r[i] < r[j] {
        if i != 0 {
          assert r[i] == t[i - 1] && r[j] == t[j - 1];
        }
      }
    }
  }

  /** The least element of `s` is below every element of a sequence that
      lists the rest of `s`. */
  lemma LeastBelowRest(s: set<nat>, m: nat, t: seq<nat>)
    requires IsLeast(m, s)
    requires forall x :: x in t <==> x in s - {m}
    ensures forall k :: 0 <= k < |t| ==> m < t[k]
  {
    forall k | 0 <= k < |t| ensures m < t[k] {
      assert t[k] in t;
    }
  }

  lemma AscendingFromMin(s: set<nat>, m: nat)
    requires IsLeast(m, s)
    ensures Ascending(s) == [m] + Ascending(s - {m})
  {
    assert Min(s) <= m && m <= Min(s);
  }

  // ----- Which labels are named -----

  /** The test at source/main.cpp:179-180: not the background (index 0), an
      index of the table, and a non-empty name. */
  predicate Qualifies(labels: seq<Label>, i: nat) {
    i != 0 && i < |labels| && labels[i].name != []
  }

  /** The qualifying indexes of `idx`, in the order of `idx`. */
  function Qualifying(labels: seq<Label>, idx: seq<nat>): (q: seq<nat>)
    ensures forall j :: 0 <= j < |q| ==> Qualifies(labels, q[j])
  {
    if idx == [] then []
    else
      var last := idx[|idx| - 1];
      Qualifying(labels, idx[..|idx| - 1]) + (if Qualifies(labels, last) then [last] else [])
  }

  /** The filter keeps exactly the qualifying members of `idx`. */
  lemma {:induction false} QualifyingMembers(labels: seq<Label>, idx: seq<nat>)
    ensures forall x :: x in Qualifying(labels, idx) <==> x in idx && Qualifies(labels, x)
    decreases |idx|
  {
    if idx != [] {
      var last := idx[|idx| - 1];
      QualifyingMembers(labels, idx[..|idx| - 1]);
      assert idx == idx[..|idx| - 1] + [last];
    }
  }

  /** Filtering keeps an ascending order ascending. */
  lemma {:induction false} QualifyingAscending(labels: seq<Label>, idx: seq<nat>)
    requires forall i, j :: 0 <= i < j < |idx| ==> idx[i] < idx[j]
    ensures forall i, j :: 0 <= i < j < |Qualifying(labels, idx)| ==>
      Qualifying(labels, idx)[i] < Qualifying(labels, idx)[j]
    decreases |idx|
  {
    if idx != [] {
      var init := idx[..|idx| - 1];
      QualifyingAscending(labels, init);
      QualifyingMembers(labels, init);
    }
  }

  function NamesOf(labels: seq<Label>, q: seq<nat>): (names: seq<string>)
    requires forall j :: 0 <= j < |q| ==> q[j] < |labels|
    ensures |names| == |q| && forall j :: 0 <= j < |q| ==> names[j] == labels[q[j]].name
  {
    seq(|q|, j requires 0 <= j < |q| => labels[q[j]].name)
  }

  // ----- Joining -----

  /** `names` separated by " & ", with no separator after the last. */
  function Join(names: seq<string>): string {
    if names == [] then ""
    else if |names| == 1 then names[0]
    else Join(names[..|names| - 1]) + " & " + names[|names| - 1]
  }

  /** What the loop accumulates: every name followed by " & ". */
  function Terminated(names: seq<string>): string {
    if names == [] then "" else Terminated(names[..|names| - 1]) + names[|names| - 1] + " & "
  }

  /** Erasing the last three characters of the accumulated string (the
      trailing " & ", source/main.cpp:185-186) leaves the names joined by
      " & "; the accumulated string is empty exactly when there are no names. */
  lemma {:induction false} EraseTrailingSeparator(names: seq<string>)
    ensures Terminated(names) == [] <==> names == []
    ensures names != [] ==> |Terminated(names)| >= 3 && Terminated(names)[..|Terminated(names)| - 3] == Join(names)
    decreases |names|
  {
    if |names| > 1 {
      var init := names[..|names| - 1];
      EraseTrailingSeparator(init);
      assert Terminated(init) == Join(init) + " & ";
      var t := Terminated(names);
      assert t == Join(init) + " & " + names[|names| - 1] + " & ";
    } else if |names| == 1 {
      assert names[..0] == [];
    }
  }

  /** The overlay string for the label table and the frame's set of
      winners: the names of the qualifying indexes in ascending order,
      joined by " & ". */
  ghost function OverlayName(labels: seq<Label>, indexes: set<nat>): string {
    Join(NamesOf(labels, Qualifying(labels, Ascending(indexes))))
  }

  /** The overlay lists exactly the qualifying members of `indexes`, each
      once, in strictly ascending index order. */
  lemma OverlayNameSpec(labels: seq<Label>, indexes: set<nat>)
    ensures exists q: seq<nat> ::
      (forall x :: x in q <==> x in indexes && Qualifies(labels, x)) &&
      (forall i, j :: 0 <= i < j < |q| ==> q[i] < q[j]) &&
      (forall j :: 0 <= j < |q| ==> q[j] < |labels|) &&
      OverlayName(labels, indexes) == Join(NamesOf(labels, q))
  {
    AscendingLength(indexes);
    AscendingMembers(indexes);
    AscendingSorted(indexes);
    QualifyingAscending(labels, Ascending(indexes));
    QualifyingMembers(labels, Ascending(indexes));
    var q := Qualifying(labels, Ascending(indexes));
    assert OverlayName(labels, indexes) == Join(NamesOf(labels, q));
  }

  /** The overlay is the empty string, and so is not drawn, exactly when no
      index of the set qualifies. */
  lemma OverlayNameEmpty(labels: seq<Label>, indexes: set<nat>)
    ensures OverlayName(labels, indexes) == [] <==> forall i :: i in indexes ==> !Qualifies(labels, i)
  {
    AscendingLength(indexes);
    AscendingMembers(indexes);
    AscendingSorted(indexes);
    QualifyingMembers(labels, Ascending(indexes));
    var q := Qualifying(labels, Ascending(indexes));
    if q != [] {
      JoinNonEmpty(NamesOf(labels, q));
    }
  }

  /** Names that are all non-empty join to a non-empty string. */
  lemma {:induction false} JoinNonEmpty(names: seq<string>)
    requires names != [] && forall j :: 0 <= j < |names| ==> names[j] != []
    ensures Join(names) != []
  {
  }

  /** The loop of source/main.cpp:177-188: visit `indexes` in ascending
      order, append "<name> & " for each qualifying index, then erase the
      trailing separator if anything was appended. */
  method BuildName(labels: seq<Label>, indexes: set<nat>) returns (name: string)
    ensures name == OverlayName(labels, indexes)
  {
    name := "";
    var rest: set<nat> := indexes;
    ghost var done: seq<nat> := [];
    while rest != {}
      invariant Ascending(indexes) == done + Ascending(rest)
      invariant name == Terminated(NamesOf(labels, Qualifying(labels, done)))
      decreases |rest|
    {
      assert IsLeast(Min(rest), rest);
      var index: nat :| IsLeast(index, rest);
      AscendingStep(indexes, done, rest, index);
      NamesStep(labels, done, index);
      ghost var names := NamesOf(labels, Qualifying(labels, done));
      if index != 0 && index < |labels| {
        if labels[index].name != "" {
          TerminatedStep(names, labels[index].name);
          name := name + labels[index].name + " & ";
        }
      }
      if !Qualifies(labels, index) {
        assert names + [] == names;
      }
      rest := rest - {index};
      done := done + [index];
    }
    assert done == Ascending(indexes);
    EraseTrailingSeparator(NamesOf(labels, Qualifying(labels, done)));
    if name != "" {
      name := name[..|name| - 3];
    }
  }

  lemma AscendingStep(indexes: set<nat>, done: seq<nat>, rest: set<nat>, index: nat)
    requires Ascending(indexes) == done + Ascending(rest)
    requires IsLeast(index, rest)
    ensures Ascending(indexes) == (done + [index]) + Ascending(rest - {index})
  {
    AscendingFromMin(rest, index);
  }

  lemma NamesStep(labels: seq<Label>, done: seq<nat>, index: nat)
    ensures NamesOf(labels, Qualifying(labels, done + [index])) ==
      NamesOf(labels, Qualifying(labels, done)) + (if Qualifies(labels, index) then [labels[index].name] else [])
  {
    assert (done + [index])[..|done|] == done;
  }

  lemma TerminatedStep(names: seq<string>, x: string)
    ensures Terminated(names + [x]) == Terminated(names) + x + " & "
  {
    assert (names + [x])[..|names|] == names;
  }

  // ----- Resolution -----

  /** `std::to_string(width) + "x" + std::to_string(height)`. */
  function Resolution(width: nat, height: nat): string {
    Decimal.ToDecimal(width) + "x" + Decimal.ToDecimal(height)
  }

  /** The resolution string holds exactly one 'x'; the numerals before and
      after it read back as the width and the height. */
  lemma ResolutionRoundTrip(width: nat, height: nat)
    ensures var s := Resolution(width, height); var i := |Decimal.ToDecimal(width)|;
      i < |s| && s[i] == 'x' &&
      (forall j :: 0 <= j < |s| && j != i ==> Decimal.IsDigit(s[j])) &&
      Decimal.AllDigits(s[..i]) && Decimal.ValueOf(s[..i]) == width &&
      Decimal.AllDigits(s[i + 1..]) && Decimal.ValueOf(s[i + 1..]) == height
  {
    var w, h := Decimal.ToDecimal(width), Decimal.ToDecimal(height);
    var s := Resolution(width, height);
    assert s[..|w|] == w && s[|w| + 1..] == h;
    Decimal.ValueOfToDecimal(width);
    Decimal.ValueOfToDecimal(height);
  }
}
