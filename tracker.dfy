/**
 * The pointer tracker of `handle_leap`: which finger is the pointer, and the
 * position and direction taken from its distal bone. A bound id is kept while
 * the frame still has that finger; otherwise it is dropped and, in the same
 * call, the index finger of the last hand that has a valid one is chosen.
 */
module Tracker {
  import opened Options
  import opened Vectors
  import opened Leap

  /** `pointer_id` (None for POINTER_ID_INVALID), `pointer_pos` and `pointer_dir`. */
  datatype PointerState = PointerState(id: Option<FingerId>, pos: Vec3, dir: Vec3)

  /** The index finger of the last hand, in iteration order, whose index finger is valid. */
  function LastIndexFinger(hands: seq<Hand>): Option<FingerId> {
    if |hands| == 0 then None
    else if hands[|hands| - 1].index.Some? then hands[|hands| - 1].index
    else LastIndexFinger(hands[..|hands| - 1])
  }

  /** Hand k has a valid index finger and no later hand does. */
  predicate IsLastWithIndex(hands: seq<Hand>, k: int) {
    0 <= k < |hands| && hands[k].index.Some? &&
    forall j | k < j < |hands| :: hands[j].index.None?
  }

  /** LastIndexFinger finds an id exactly when some hand has a valid index finger, and it is the last such hand's. */
  lemma {:induction false} LastIndexFingerIsLast(hands: seq<Hand>)
    ensures LastIndexFinger(hands).Some? <==> exists k | 0 <= k < |hands| :: hands[k].index.Some?
    ensures LastIndexFinger(hands).Some? ==>
              exists k :: IsLastWithIndex(hands, k) && hands[k].index == LastIndexFinger(hands)
  {
    if |hands| > 0 {
      var n := |hands| - 1;
      var init := hands[..n];
      if hands[n].index.Some? {
        assert IsLastWithIndex(hands, n);
      } else {
        LastIndexFingerIsLast(init);
        assert forall k | 0 <= k < n :: init[k] == hands[k];
        if LastIndexFinger(init).Some? {
          var k :| IsLastWithIndex(init, k) && init[k].index == LastIndexFinger(init);
          assert IsLastWithIndex(hands, k);
        }
      }
    }
  }

  /** A chosen id belongs to a valid finger of a consistent frame. */
  lemma LastIndexFingerIsValid(frame: Frame)
    requires frame.Valid()
    ensures LastIndexFinger(frame.hands).Some? ==> LastIndexFinger(frame.hands).value in frame.fingers
  {
    LastIndexFingerIsLast(frame.hands);
  }

  /** The id after the check of main.cpp:90-94: kept if the frame still has that finger. */
  function Kept(id: Option<FingerId>, frame: Frame): (r: Option<FingerId>)
    ensures r.Some? <==> id.Some? && frame.Finger(id.value).Some?
    ensures r.Some? ==> r == id
  {
    if id.Some? && frame.Finger(id.value).None? then None else id
  }

  /** The id after the check and the reselection. */
  function Selected(id: Option<FingerId>, frame: Frame): Option<FingerId> {
    var kept := Kept(id, frame);
    if kept.Some? then kept else LastIndexFinger(frame.hands)
  }

  /** The pointer state after one call of `handle_leap`. */
  function Track(p: PointerState, connected: bool, frame: Frame): PointerState
    requires connected ==> frame.Valid()
  {
    if !connected then p
    else
      var id := Selected(p.id, frame);
      if id.None? then PointerState(None, p.pos, p.dir)
      else
        LastIndexFingerIsValid(frame);
        var bone := frame.fingers[id.value];
        PointerState(id, bone.prevJoint.Div(100.0), bone.direction.Neg())
  }

  /** While the sensor is disconnected nothing about the pointer changes. */
  lemma DisconnectedKeepsPointer(p: PointerState, frame: Frame)
    ensures Track(p, false, frame) == p
  {
  }

  /** A bound id whose finger is still in the frame is kept. */
  lemma KeepsLiveFinger(p: PointerState, frame: Frame)
    requires frame.Valid()
    requires p.id.Some? && p.id.value in frame.fingers
    ensures Track(p, true, frame).id == p.id
  {
  }

  /**
   * A lost or absent id is replaced, in the same call, by the last hand's valid
   * index finger; with no such hand the tracker is unbound.
   */
  lemma ReselectsWhenLost(p: PointerState, frame: Frame)
    requires frame.Valid()
    requires p.id.None? || p.id.value !in frame.fingers
    ensures Track(p, true, frame).id.None? <==> forall k | 0 <= k < |frame.hands| :: frame.hands[k].index.None?
    ensures Track(p, true, frame).id.Some? ==>
              exists k :: IsLastWithIndex(frame.hands, k) && frame.hands[k].index == Track(p, true, frame).id
  {
    LastIndexFingerIsLast(frame.hands);
  }

  /** The id changes only in a connected call whose frame lacks the old id's finger. */
  lemma IdChangesOnlyWhenLost(p: PointerState, connected: bool, frame: Frame)
    requires connected ==> frame.Valid()
    ensures Track(p, connected, frame).id != p.id ==>
              connected && (p.id.None? || p.id.value !in frame.fingers)
  {
  }

  /**
   * After a connected call the pointer, when bound, is a valid finger of the new
   * frame, and position and direction come from its distal bone; when unbound,
   * position and direction are the stale ones.
   */
  lemma RefreshedFromDistalBone(p: PointerState, frame: Frame)
    requires frame.Valid()
    ensures var q := Track(p, true, frame);
            (q.id.Some? ==> q.id.value in frame.fingers &&
                            q.pos == frame.fingers[q.id.value].prevJoint.Div(100.0) &&
                            q.dir == frame.fingers[q.id.value].direction.Neg()) &&
            (q.id.None? ==> q.pos == p.pos && q.dir == p.dir)
  {
    LastIndexFingerIsValid(frame);
  }

  /** Two hands with valid index fingers 7 and 9: the later hand in iteration order wins. */
  lemma TwoHandsLastWins(p: PointerState, bone7: Bone, bone9: Bone)
    requires p.id.None?
    ensures Track(p, true, Frame([Hand(Some(7)), Hand(Some(9))], map[7 := bone7, 9 := bone9])).id == Some(9)
  {
    var frame := Frame([Hand(Some(7)), Hand(Some(9))], map[7 := bone7, 9 := bone9]);
    assert frame.Valid();
  }

  /**
   * Finger 5 is lost while finger 7 of another hand is visible: the tracker
   * drops 5 and binds 7 in the same call.
   */
  lemma LostAndReacquiredInOneCall(p: PointerState, bone7: Bone)
    requires p.id == Some(5)
    ensures Track(p, true, Frame([Hand(Some(7)), Hand(None)], map[7 := bone7])).id == Some(7)
  {
    var frame := Frame([Hand(Some(7)), Hand(None)], map[7 := bone7]);
    assert frame.Valid();
    assert frame.hands[..1] == [Hand(Some(7))];
  }

  /** The pointer state after a run of calls, each with its connection flag and frame. */
  function TrackAll(p: PointerState, run: seq<(bool, Frame)>): PointerState
    requires forall i | 0 <= i < |run| :: run[i].0 ==> run[i].1.Valid()
    decreases |run|
  {
    if |run| == 0 then p else TrackAll(Track(p, run[0].0, run[0].1), run[1..])
  }

  /** A run of disconnected calls leaves the pointer as it was. */
  lemma {:induction false} DisconnectedRunKeepsPointer(p: PointerState, run: seq<(bool, Frame)>)
    requires forall i | 0 <= i < |run| :: !run[i].0
    ensures TrackAll(p, run) == p
  {
    if |run| > 0 {
      DisconnectedRunKeepsPointer(p, run[1..]);
    }
  }

  /**
   * The pointer sticks to its finger: over a run in which every connected frame
   * still has that finger (disconnected calls included), the id never changes.
   */
  lemma {:induction false} StaysBoundWhileValid(p: PointerState, run: seq<(bool, Frame)>)
    requires p.id.Some?
    requires forall i | 0 <= i < |run| :: run[i].0 ==> run[i].1.Valid() && p.id.value in run[i].1.fingers
    ensures TrackAll(p, run).id == p.id
    decreases |run|
  {
    if |run| > 0 {
      var q := Track(p, run[0].0, run[0].1);
      assert q.id == p.id;
      StaysBoundWhileValid(q, run[1..]);
    }
  }

  /**
   * `handle_leap`'s loop over the hands (main.cpp:97-104), entered with the
   * pointer unbound: every hand with a valid index finger overwrites the id.
   */
  method SelectIndexFinger(hands: seq<Hand>) returns (id: Option<FingerId>)
    ensures id == LastIndexFinger(hands)
  {
    id := None;
    for i := 0 to |hands|
      invariant id == LastIndexFinger(hands[..i])
    {
      assert hands[..i + 1][..i] == hands[..i];
      var finger := hands[i].index;
      if finger.None? {
        continue;
      }
      id := finger;
    }
    assert hands[..|hands|] == hands;
  }

  /**
   * The tracker's process-wide state: the `pointer_*` globals, the last frame
   * seen, and the connection flag `handle_leap` keeps in a function-static.
   */
  class PointerTracker {
    var pointerId: Option<FingerId>
    var pointerPos: Vec3
    var pointerDir: Vec3
    var lastFrame: Frame
    var lastConnected: bool

    function State(): PointerState
      reads this
    {
      PointerState(pointerId, pointerPos, pointerDir)
    }

    /** The state at program start: unbound, zero vectors, an empty frame, not connected. */
    constructor ()
      ensures State() == PointerState(None, Zero, Zero)
      ensures lastFrame == EmptyFrame && !lastConnected
    {
      pointerId := None;
      pointerPos, pointerDir := Zero, Zero;
      lastFrame := EmptyFrame;
      lastConnected := false;
    }

    /**
     * `handle_leap`, with the controller's connection flag and current frame as
     * inputs (the frame is read only when connected).
     */
    method HandleLeap(connected: bool, frame: Frame)
      requires connected ==> frame.Valid()
      modifies this
      ensures State() == Track(old(State()), connected, frame)
      ensures lastConnected == connected
      ensures lastFrame == if connected then frame else old(lastFrame)
    {
      lastConnected := connected;
      if !connected {
        return;
      }

      if pointerId.Some? {
        if frame.Finger(pointerId.value).None? {
          pointerId := None;
        }
      }
      if pointerId.None? {
        pointerId := SelectIndexFinger(frame.hands);
        LastIndexFingerIsValid(frame);
      }
      if pointerId.Some? {
        var bone := frame.fingers[pointerId.value];
        pointerPos := bone.prevJoint.Div(100.0);
        pointerDir := bone.direction.Neg();
      }

      lastFrame := frame;
    }
  }
}
