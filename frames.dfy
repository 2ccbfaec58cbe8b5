/** The record stream both detectors read: one entry per bus frame, carrying
    the three fields the detectors look at. */
module CanFrames {

  /** Arbitration identifier of a frame. */
  type Id = nat

  /** One bus frame. `timestamp` is in seconds; `dlc` is the data length
      code, and a dlc of 0 marks a remote (request) frame. */
  datatype Frame = Frame(id: Id, timestamp: real, dlc: nat)

  /** The identifiers of a stream, in stream order. */
  function IdsOf(frames: seq<Frame>): (ids: seq<Id>)
    ensures |ids| == |frames|
    ensures forall k :: 0 <= k < |frames| ==> ids[k] == frames[k].id
  {
    if frames == [] then [] else IdsOf(frames[..|frames| - 1]) + [frames[|frames| - 1].id]
  }
}
