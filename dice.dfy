/** Dice: a die is its list of face values, fixed when it is built. */
module Dice {

  datatype Die = Die(faces: seq<int>) {

    /** Dice.roll, given the index the secure random source drew from [0, faces.length):
        the face at that index, so always one of the die's faces. */
    function Roll(index: nat): (face: int)
      requires index < |faces|
      ensures face in faces
    {
      faces[index]
    }
  }

  /** Every face of a die is the result of some roll. */
  lemma EveryFaceCanBeRolled(d: Die, x: int)
    requires x in d.faces
    ensures exists i :: 0 <= i < |d.faces| && d.Roll(i) == x
  {
    var i :| 0 <= i < |d.faces| && d.faces[i] == x;
    assert d.Roll(i) == x;
  }
}
