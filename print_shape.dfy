/**
 * print_shape of the detector application (src/main.cpp): the dimensions
 * of a tensor shape in decimal, joined by "x".
 */
module ShapeFormat {
  import opened Numerals

  const Separator: char := 'x'

  /** The dimensions joined by the separator, built from the back. */
  function Shape(v: seq<int>): string
    requires |v| > 0
  {
    if |v| == 1 then SignedDecimal(v[0])
    else Shape(v[..|v| - 1]) + [Separator] + SignedDecimal(v[|v| - 1])
  }

  /** print_shape: every dimension but the last followed by "x", then the
      last one. The shape must not be empty. */
  method PrintShape(v: seq<int>) returns (s: string)
    requires |v| > 0
    ensures s == Shape(v)
  {
    s := "";
    for i := 0 to |v| - 1
      invariant i == 0 ==> s == ""
      invariant i > 0 ==> s == Shape(v[..i]) + [Separator]
    {
      assert v[..i + 1][..i] == v[..i];
      s := s + SignedDecimal(v[i]) + [Separator];
    }
    s := s + SignedDecimal(v[|v| - 1]);
    assert v[..|v|] == v;
  }

  /** How often `c` occurs in `s`. */
  function Occurrences(s: string, c: char): nat {
    if s == [] then 0 else Occurrences(s[..|s| - 1], c) + (if s[|s| - 1] == c then 1 else 0)
  }

  lemma {:induction false} OccurrencesAppend(a: string, b: string, c: char)
    ensures Occurrences(a + b, c) == Occurrences(a, c) + Occurrences(b, c)
    decreases |b|
  {
    if b == [] {
      assert a + b == a;
    } else {
      assert (a + b)[..|a + b| - 1] == a + b[..|b| - 1];
      OccurrencesAppend(a, b[..|b| - 1], c);
    }
  }

  lemma {:induction false} NoOccurrences(s: string, c: char)
    requires forall k :: 0 <= k < |s| ==> s[k] != c
    ensures Occurrences(s, c) == 0
  {
    if s != [] {
      NoOccurrences(s[..|s| - 1], c);
    }
  }

  /** The output holds exactly one separator between each two dimensions. */
  lemma {:induction false} SeparatorCount(v: seq<int>)
    requires |v| > 0
    ensures Occurrences(Shape(v), Separator) == |v| - 1
  {
    var last := SignedDecimal(v[|v| - 1]);
    NoOccurrences(last, Separator);
    if |v| > 1 {
      SeparatorCount(v[..|v| - 1]);
      OccurrencesAppend(Shape(v[..|v| - 1]) + [Separator], last, Separator);
      OccurrencesAppend(Shape(v[..|v| - 1]), [Separator], Separator);
      assert Occurrences([Separator], Separator) == 1 by {
        assert [Separator][..0] == [];
      }
    }
  }

  /** A one-dimensional shape prints as that number alone. */
  lemma SingleDimension(d: int)
    ensures Shape([d]) == SignedDecimal(d)
  {
  }

  /** Splitting on `sep`: the pieces between separators, built from the back. */
  function Split(s: string, sep: char): (pieces: seq<string>)
    ensures |pieces| > 0
  {
    if s == [] then [""]
    else
      var init := Split(s[..|s| - 1], sep);
      if s[|s| - 1] == sep then init + [""]
      else init[..|init| - 1] + [init[|init| - 1] + [s[|s| - 1]]]
  }

  lemma {:induction false} SplitOnePiece(a: string, b: string, sep: char)
    requires forall k :: 0 <= k < |b| ==> b[k] != sep
    ensures Split(a + [sep] + b, sep) == Split(a, sep) + [b]
    decreases |b|
  {
    if b == [] {
      assert a + [sep] + b == a + [sep];
      assert (a + [sep])[..|a|] == a;
    } else {
      var init := b[..|b| - 1];
      assert (a + [sep] + b)[..|a| + |b|] == a + [sep] + init;
      SplitOnePiece(a, init, sep);
      assert init + [b[|b| - 1]] == b;
    }
  }

  lemma {:induction false} SplitNoSeparator(b: string, sep: char)
    requires forall k :: 0 <= k < |b| ==> b[k] != sep
    ensures Split(b, sep) == [b]
    decreases |b|
  {
    if b != [] {
      SplitNoSeparator(b[..|b| - 1], sep);
      assert b[..|b| - 1] + [b[|b| - 1]] == b;
    }
  }

  function Pieces(v: seq<int>): seq<string> {
    seq(|v|, i requires 0 <= i < |v| => SignedDecimal(v[i]))
  }

  lemma PiecesOfInit(v: seq<int>)
    requires |v| > 0
    ensures Pieces(v) == Pieces(v[..|v| - 1]) + [SignedDecimal(v[|v| - 1])]
  {
    assert forall i :: 0 <= i < |v| - 1 ==> Pieces(v)[i] == Pieces(v[..|v| - 1])[i];
  }

  lemma NoSeparatorInDecimal(d: int)
    ensures forall k :: 0 <= k < |SignedDecimal(d)| ==> SignedDecimal(d)[k] != Separator
  {
  }

  /** Splitting the output on "x" gives back the decimal forms of the
      dimensions, in order. */
  lemma {:induction false} SplitShape(v: seq<int>)
    requires |v| > 0
    ensures Split(Shape(v), Separator) == Pieces(v)
  {
    var last := SignedDecimal(v[|v| - 1]);
    NoSeparatorInDecimal(v[|v| - 1]);
    if |v| == 1 {
      SplitNoSeparator(last, Separator);
    } else {
      var init := v[..|v| - 1];
      SplitShape(init);
      SplitOnePiece(Shape(init), last, Separator);
      PiecesOfInit(v);
    }
  }

  /** The shapes print differently whenever they differ. */
  lemma ShapeInjective(v: seq<int>, w: seq<int>)
    requires |v| > 0 && |w| > 0 && Shape(v) == Shape(w)
    ensures v == w
  {
    SplitShape(v);
    SplitShape(w);
    var pv := Split(Shape(v), Separator);
    assert |v| == |pv| == |w|;
    forall i | 0 <= i < |v|
      ensures v[i] == w[i]
    {
      assert pv[i] == SignedDecimal(v[i]) == SignedDecimal(w[i]);
      SignedDecimalInjective(v[i], w[i]);
    }
  }

  /** The shape of the detector's input tensor prints as 1x3x640x640. */
  method ExampleShape() returns (s: string)
    ensures s == "1x3x640x640"
  {
    s := PrintShape([1, 3, 640, 640]);
    assert Decimal(64) == "64";
    assert SignedDecimal(640) == "640";
    assert [1, 3][..1] == [1];
    assert Shape([1, 3]) == "1x3";
    assert [1, 3, 640][..2] == [1, 3];
    assert Shape([1, 3, 640]) == "1x3x640";
    assert [1, 3, 640, 640][..3] == [1, 3, 640];
  }
}
