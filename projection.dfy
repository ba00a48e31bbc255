/**
 * composeRigidTransformationMatrix of common/projection.cpp: a 3x3
 * rotation and a 3x1 translation placed side by side, closed by the row
 * 0 0 0 1.
 */
module Projection {
  import opened OpenCvUtils

  /** The default translation argument: the zero 3x1 column. */
  const ZeroTranslation: seq<seq<real>> := [[0.0], [0.0], [0.0]]

  const BottomRow: seq<real> := [0.0, 0.0, 0.0, 1.0]

  function ComposeRigidTransformationMatrix(rotation: seq<seq<real>>, translation: seq<seq<real>>): (out: seq<seq<real>>)
    requires HasShape(rotation, 3, 3) && HasShape(translation, 3, 1)
    ensures HasShape(out, 4, 4)
    ensures forall r, c :: 0 <= r < 3 && 0 <= c < 3 ==> out[r][c] == rotation[r][c]
    ensures forall r :: 0 <= r < 3 ==> out[r][3] == translation[r][0]
    ensures out[3] == BottomRow
  {
    var side := HConcat(rotation, translation);
    assert forall r :: 0 <= r < 3 ==> side[r][..3] == rotation[r] && side[r][3..] == translation[r];
    VConcat(side, [BottomRow])
  }

  /** With the default zero translation the last column is 0 0 0 1, and the
      rotation is kept as it is. */
  lemma DefaultTranslationColumn(rotation: seq<seq<real>>)
    requires HasShape(rotation, 3, 3)
    ensures var out := ComposeRigidTransformationMatrix(rotation, ZeroTranslation);
      && [out[0][3], out[1][3], out[2][3], out[3][3]] == [0.0, 0.0, 0.0, 1.0]
      && forall r :: 0 <= r < 3 ==> out[r][..3] == rotation[r]
  {
    var out := ComposeRigidTransformationMatrix(rotation, ZeroTranslation);
    forall r | 0 <= r < 3
      ensures out[r][..3] == rotation[r]
    {
      assert forall c :: 0 <= c < 3 ==> out[r][..3][c] == rotation[r][c];
    }
  }
}
