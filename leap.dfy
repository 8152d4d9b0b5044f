/**
 * The part of a sensor frame the demo reads. The SDK's own detection is not
 * modelled: a frame is its hands, in the SDK's iteration order, each with the
 * id of its index finger when that finger is valid, and a lookup from finger
 * id to the finger's distal bone, defined exactly for the valid fingers.
 */
module Leap {
  import opened Options
  import opened Vectors

  /** Finger ids are `int32_t`. */
  newtype Int32 = x: int | -0x8000_0000 <= x < 0x8000_0000
  type FingerId = Int32

  /** The distal bone of a finger: its proximal joint and its direction. */
  datatype Bone = Bone(prevJoint: Vec3, direction: Vec3)

  /** A hand; `index` is the id of its index finger, or None when that finger is not valid. */
  datatype Hand = Hand(index: Option<FingerId>)

  datatype Frame = Frame(hands: seq<Hand>, fingers: map<FingerId, Bone>) {
    /** `frame.finger(id)`: the distal bone of the valid finger with that id, if any. */
    function Finger(id: FingerId): (b: Option<Bone>)
      ensures b.Some? <==> id in fingers
    {
      if id in fingers then Some(fingers[id]) else None
    }

    /** The SDK's consistency: a hand's valid index finger is also found by id. */
    predicate Valid() {
      forall k | 0 <= k < |hands| && hands[k].index.Some? :: hands[k].index.value in fingers
    }
  }

  /** A default-constructed frame: no hands, no fingers. */
  const EmptyFrame: Frame := Frame([], map[])
}
