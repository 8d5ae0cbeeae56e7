/**
 * The parsed Biovision Hierarchy (BVH) file as the frame assembler sees it.
 *
 * The text parser lives in a third-party library and is not part of this model;
 * what the assembler reads from its result is the frame count, the joint names in
 * hierarchy order, the frame time, and a per-(frame, joint, channel) sample lookup
 * that may miss. A miss stands for the `KeyError` the assembler expects from the
 * library's channel lookup.
 */
module BvhData {
  import opened Wrappers

  /** Channel tags as they appear in a BVH CHANNELS line. */
  const XPosition: string := "Xposition"
  const YPosition: string := "Yposition"
  const ZPosition: string := "Zposition"
  const XRotation: string := "Xrotation"
  const YRotation: string := "Yrotation"
  const ZRotation: string := "Zrotation"

  datatype ChannelKey = ChannelKey(frame: nat, joint: string, channel: string)

  /** The parsed motion: `nframes`, the names of `get_joints()` in order, `frame_time`, and the samples. */
  datatype Bvh = Bvh(nframes: nat, joints: seq<string>, frameTime: real, samples: map<ChannelKey, real>)

  /** The channel lookup; `None` is the lookup that raises `KeyError`. */
  function Lookup(m: Bvh, frame: nat, joint: string, channel: string): Option<real>
  {
    var key := ChannelKey(frame, joint, channel);
    if key in m.samples then Some(m.samples[key]) else None
  }

  /** The exception a failed lookup raises, with what was looked up. */
  datatype ParseError = KeyError(frame: nat, joint: string, channel: string)
}
