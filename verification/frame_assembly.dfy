/**
 * The frame assembler: one row of samples per frame, the six root values of the
 * joint named "Hips" first, then one rotation value per remaining joint.
 */
module FrameAssembly {
  import opened Wrappers
  import opened BvhData

  /** The root joint is looked up by this literal name, whatever the hierarchy calls its first joint. */
  const Hips: string := "Hips"
  const RootPosition: seq<string> := [XPosition, YPosition, ZPosition]
  /** Root rotation in MotionBuilder order. */
  const RootRotation: seq<string> := [ZRotation, XRotation, YRotation]
  const RootChannels: seq<string> := RootPosition + RootRotation
  /** The axes tried, in this order, for every joint but the first. */
  const RotationFallback: seq<string> := [ZRotation, YRotation, XRotation]

  /** The result handed to the serializer. */
  datatype MotionData = MotionData(jointNames: seq<string>, frames: seq<seq<real>>, frameTime: real)

  /** `joint_names[1:]`: empty for an empty list. */
  function Tail(joints: seq<string>): seq<string>
  {
    if |joints| == 0 then [] else joints[1..]
  }

  /** The number of columns of every row. */
  function RowWidth(joints: seq<string>): (w: nat)
    ensures |joints| > 0 ==> w == |joints| + 5
    ensures |joints| == 0 ==> w == 6
  {
    6 + |Tail(joints)|
  }

  /** The failure `e` names the first of `channels` that `joint` lacks in `frame`. */
  ghost predicate FirstMissing(m: Bvh, frame: nat, joint: string, channels: seq<string>, e: ParseError)
  {
    && e == KeyError(frame, joint, e.channel)
    && exists k | 0 <= k < |channels| ::
         && channels[k] == e.channel
         && Lookup(m, frame, joint, channels[k]).None?
         && forall j | 0 <= j < k :: Lookup(m, frame, joint, channels[j]).Some?
  }

  /** The samples of `channels` for `joint` in `frame`, in order; the first missing one raises. */
  function Samples(m: Bvh, frame: nat, joint: string, channels: seq<string>): (r: Result<seq<real>, ParseError>)
    ensures r.Success? <==> forall k | 0 <= k < |channels| :: Lookup(m, frame, joint, channels[k]).Some?
    ensures r.Success? ==>
      && |r.value| == |channels|
      && forall k | 0 <= k < |channels| :: Lookup(m, frame, joint, channels[k]) == Some(r.value[k])
    ensures r.Failure? ==> FirstMissing(m, frame, joint, channels, r.error)
    decreases |channels|
  {
    if |channels| == 0 then Success([])
    else
      match Lookup(m, frame, joint, channels[0])
      case None => Failure(KeyError(frame, joint, channels[0]))
      case Some(v) =>
        var tail := channels[1..];
        assert forall k | 1 <= k < |channels| :: tail[k - 1] == channels[k];
        var rest :- Samples(m, frame, joint, tail);
        Success([v] + rest)
  }

  /** The first of `axes` present for `joint` in `frame`, or 0.0 when none is. */
  function FirstPresent(m: Bvh, frame: nat, joint: string, axes: seq<string>): (v: real)
    ensures (forall k | 0 <= k < |axes| :: Lookup(m, frame, joint, axes[k]).None?) ==> v == 0.0
    ensures forall k | 0 <= k < |axes| ::
      (Lookup(m, frame, joint, axes[k]).Some? && forall j | 0 <= j < k :: Lookup(m, frame, joint, axes[j]).None?)
        ==> v == Lookup(m, frame, joint, axes[k]).value
    decreases |axes|
  {
    if |axes| == 0 then 0.0
    else
      match Lookup(m, frame, joint, axes[0])
      case Some(x) => x
      case None =>
        var tail := axes[1..];
        assert forall k | 1 <= k < |axes| :: tail[k - 1] == axes[k];
        FirstPresent(m, frame, joint, tail)
  }

  /** The single value a non-root joint contributes to a row. */
  function Rotation(m: Bvh, frame: nat, joint: string): (v: real)
    ensures Lookup(m, frame, joint, ZRotation).Some? ==> v == Lookup(m, frame, joint, ZRotation).value
    ensures Lookup(m, frame, joint, ZRotation).None? && Lookup(m, frame, joint, YRotation).Some?
      ==> v == Lookup(m, frame, joint, YRotation).value
    ensures Lookup(m, frame, joint, ZRotation).None? && Lookup(m, frame, joint, YRotation).None?
      && Lookup(m, frame, joint, XRotation).Some?
      ==> v == Lookup(m, frame, joint, XRotation).value
    ensures Lookup(m, frame, joint, ZRotation).None? && Lookup(m, frame, joint, YRotation).None?
      && Lookup(m, frame, joint, XRotation).None?
      ==> v == 0.0
  {
    assert RotationFallback[0] == ZRotation && RotationFallback[1] == YRotation && RotationFallback[2] == XRotation;
    FirstPresent(m, frame, joint, RotationFallback)
  }

  /** One rotation value per joint of `joints`, in list order. */
  function JointColumns(m: Bvh, frame: nat, joints: seq<string>): (cols: seq<real>)
    ensures |cols| == |joints|
    ensures forall k | 0 <= k < |joints| :: cols[k] == Rotation(m, frame, joints[k])
  {
    if |joints| == 0 then []
    else JointColumns(m, frame, joints[..|joints| - 1]) + [Rotation(m, frame, joints[|joints| - 1])]
  }

  /** All six root channels of "Hips" are present in `frame`. */
  ghost predicate RootPresent(m: Bvh, frame: nat)
  {
    forall k | 0 <= k < |RootChannels| :: Lookup(m, frame, Hips, RootChannels[k]).Some?
  }

  /** The row for `frame`: root position, root rotation, then one column per joint after the first. */
  function Row(m: Bvh, frame: nat): (r: Result<seq<real>, ParseError>)
    ensures r.Failure? ==> r.error.frame == frame && r.error.joint == Hips
  {
    var pos :- Samples(m, frame, Hips, RootPosition);
    var rot :- Samples(m, frame, Hips, RootRotation);
    Success(pos + rot + JointColumns(m, frame, Tail(m.joints)))
  }

  /** A row exists exactly when "Hips" has all six root channels; otherwise the first missing one is reported. */
  lemma RowSucceedsIff(m: Bvh, frame: nat)
    ensures Row(m, frame).Success? <==> RootPresent(m, frame)
    ensures Row(m, frame).Failure? ==> FirstMissing(m, frame, Hips, RootChannels, Row(m, frame).error)
  {
    assert forall k | 0 <= k < 3 :: RootChannels[k] == RootPosition[k] && RootChannels[k + 3] == RootRotation[k];
    var pos := Samples(m, frame, Hips, RootPosition);
    if pos.Success? {
      var rot := Samples(m, frame, Hips, RootRotation);
      if rot.Failure? {
        FirstMissingAfterPresent(m, frame, Hips, RootPosition, RootRotation, rot.error);
      }
    }
  }

  /** Column order of a row: X, Y, Z position and Z, X, Y rotation of "Hips", then joints 1, 2, ... */
  lemma RowLayout(m: Bvh, frame: nat)
    requires Row(m, frame).Success?
    ensures var row := Row(m, frame).value;
      && |row| == RowWidth(m.joints)
      && Lookup(m, frame, Hips, XPosition) == Some(row[0])
      && Lookup(m, frame, Hips, YPosition) == Some(row[1])
      && Lookup(m, frame, Hips, ZPosition) == Some(row[2])
      && Lookup(m, frame, Hips, ZRotation) == Some(row[3])
      && Lookup(m, frame, Hips, XRotation) == Some(row[4])
      && Lookup(m, frame, Hips, YRotation) == Some(row[5])
      && forall c | 6 <= c < |row| :: row[c] == Rotation(m, frame, m.joints[c - 5])
  {
    var pos := Samples(m, frame, Hips, RootPosition).value;
    var rot := Samples(m, frame, Hips, RootRotation).value;
    var cols := JointColumns(m, frame, Tail(m.joints));
    var row := Row(m, frame).value;
    assert row == pos + rot + cols;
    forall c | 6 <= c < |row|
      ensures row[c] == Rotation(m, frame, m.joints[c - 5])
    {
      assert row[c] == cols[c - 6];
    }
  }

  /** A miss among `channels` is still the first miss once present channels are put before them. */
  lemma FirstMissingAfterPresent(m: Bvh, frame: nat, joint: string, before: seq<string>, channels: seq<string>, e: ParseError)
    requires forall k | 0 <= k < |before| :: Lookup(m, frame, joint, before[k]).Some?
    requires FirstMissing(m, frame, joint, channels, e)
    ensures FirstMissing(m, frame, joint, before + channels, e)
  {
    var all := before + channels;
    var k :| 0 <= k < |channels| && channels[k] == e.channel && Lookup(m, frame, joint, channels[k]).None?
      && forall j | 0 <= j < k :: Lookup(m, frame, joint, channels[j]).Some?;
    assert all[|before| + k] == channels[k];
    forall j | 0 <= j < |before| + k
      ensures Lookup(m, frame, joint, all[j]).Some?
    {
      if j < |before| {
        assert all[j] == before[j];
      } else {
        assert all[j] == channels[j - |before|];
      }
    }
  }

  /** The rows of frames `0 .. n-1` in increasing order, or the error of the earliest frame that fails. */
  function Assemble(m: Bvh, n: nat): (r: Result<seq<seq<real>>, ParseError>)
    ensures r.Success? <==> forall i | 0 <= i < n :: Row(m, i).Success?
    ensures r.Success? ==> |r.value| == n && forall i | 0 <= i < n :: Row(m, i) == Success(r.value[i])
    ensures r.Failure? ==>
      && r.error.frame < n
      && Row(m, r.error.frame) == Failure(r.error)
      && forall i | 0 <= i < r.error.frame :: Row(m, i).Success?
  {
    if n == 0 then Success([])
    else
      var rows :- Assemble(m, n - 1);
      var row :- Row(m, n - 1);
      Success(rows + [row])
  }

  /** Every frame has all six root channels of "Hips". */
  ghost predicate RootComplete(m: Bvh)
  {
    forall i | 0 <= i < m.nframes :: RootPresent(m, i)
  }

  /** What the assembler returns for `m`: the whole dataset, or the first error and nothing else. */
  function Parse(m: Bvh): (r: Result<MotionData, ParseError>)
    ensures r.Success? <==> forall i | 0 <= i < m.nframes :: Row(m, i).Success?
    ensures r.Success? ==>
      && r.value.jointNames == m.joints
      && r.value.frameTime == m.frameTime
      && |r.value.frames| == m.nframes
      && forall i | 0 <= i < m.nframes :: Row(m, i) == Success(r.value.frames[i])
    ensures r.Failure? ==>
      && r.error.frame < m.nframes
      && Row(m, r.error.frame) == Failure(r.error)
      && forall i | 0 <= i < r.error.frame :: Row(m, i).Success?
  {
    var frames :- Assemble(m, m.nframes);
    Success(MotionData(m.joints, frames, m.frameTime))
  }

  /** The parse succeeds exactly when every frame has all six root channels of "Hips". */
  lemma ParseSucceedsIff(m: Bvh)
    ensures Parse(m).Success? <==> RootComplete(m)
  {
    forall i | 0 <= i < m.nframes
      ensures Row(m, i).Success? <==> RootPresent(m, i)
    {
      RowSucceedsIff(m, i);
    }
  }

  /** A successful parse: `nframes` rows of one width, row `i` laid out from frame `i`. */
  lemma ParsedRow(m: Bvh, i: nat)
    requires Parse(m).Success?
    requires i < m.nframes
    ensures var d := Parse(m).value;
      && |d.frames| == m.nframes
      && |d.frames[i]| == RowWidth(m.joints)
      && Lookup(m, i, Hips, XPosition) == Some(d.frames[i][0])
      && Lookup(m, i, Hips, YPosition) == Some(d.frames[i][1])
      && Lookup(m, i, Hips, ZPosition) == Some(d.frames[i][2])
      && Lookup(m, i, Hips, ZRotation) == Some(d.frames[i][3])
      && Lookup(m, i, Hips, XRotation) == Some(d.frames[i][4])
      && Lookup(m, i, Hips, YRotation) == Some(d.frames[i][5])
      && forall c | 6 <= c < |d.frames[i]| :: d.frames[i][c] == Rotation(m, i, m.joints[c - 5])
  {
    RowLayout(m, i);
  }

  /** A failed parse names a missing root channel of "Hips" in the earliest frame that lacks one. */
  lemma ParseFailure(m: Bvh)
    requires Parse(m).Failure?
    ensures var e := Parse(m).error;
      && e.joint == Hips
      && e.frame < m.nframes
      && FirstMissing(m, e.frame, Hips, RootChannels, e)
      && forall i | 0 <= i < e.frame :: RootPresent(m, i)
  {
    var e := Parse(m).error;
    RowSucceedsIff(m, e.frame);
    forall i | 0 <= i < e.frame
      ensures RootPresent(m, i)
    {
      RowSucceedsIff(m, i);
    }
  }

  /** Hips, Spine with only a Y rotation, Head with no rotation: rows of width 8 ending in Spine's Y value and 0.0. */
  lemma ThreeJointExample(m: Bvh, i: nat)
    requires m.joints == [Hips, "Spine", "Head"]
    requires RootComplete(m) && i < m.nframes
    requires Lookup(m, i, "Spine", ZRotation).None? && Lookup(m, i, "Spine", YRotation).Some?
    requires Lookup(m, i, "Head", ZRotation).None? && Lookup(m, i, "Head", YRotation).None?
    requires Lookup(m, i, "Head", XRotation).None?
    ensures Parse(m).Success?
    ensures var row := Parse(m).value.frames[i];
      && |row| == 8
      && row[6] == Lookup(m, i, "Spine", YRotation).value
      && row[7] == 0.0
  {
    ParseSucceedsIff(m);
    ParsedRow(m, i);
  }

  /** A root lookup that fails in frame `i` after frames `0 .. i-1` succeeded is the whole parse's error. */
  lemma ParseStopsAtFirstFailingFrame(m: Bvh, i: nat)
    requires i < m.nframes
    requires Assemble(m, i).Success?
    requires Row(m, i).Failure?
    ensures Parse(m) == Failure(Row(m, i).error)
  {
    var all := Assemble(m, m.nframes);
    assert all.Failure?;
    assert all.error.frame == i;
  }

  /** The first joint gets no column of its own: renaming it changes no row. */
  lemma FirstJointHasNoColumn(m: Bvh, name: string)
    requires |m.joints| > 0
    ensures var m' := m.(joints := [name] + m.joints[1..]);
      && (Parse(m).Success? <==> Parse(m').Success?)
      && (Parse(m).Success? ==> Parse(m).value.frames == Parse(m').value.frames)
  {
    var m' := m.(joints := [name] + m.joints[1..]);
    assert Tail(m'.joints) == Tail(m.joints);
    forall i | 0 <= i < m.nframes
      ensures Row(m, i) == Row(m', i)
    {
      RowsAgree(m, m', i);
    }
  }

  /** Rows depend on the samples and on the joints after the first, not on the first joint's name. */
  lemma RowsAgree(m: Bvh, m': Bvh, frame: nat)
    requires m'.samples == m.samples
    requires Tail(m'.joints) == Tail(m.joints)
    ensures Row(m, frame) == Row(m', frame)
  {
    SamplesAgree(m, m', frame, Hips, RootPosition);
    SamplesAgree(m, m', frame, Hips, RootRotation);
    var cols := JointColumns(m, frame, Tail(m.joints));
    var cols' := JointColumns(m', frame, Tail(m'.joints));
    forall k | 0 <= k < |cols|
      ensures cols[k] == cols'[k]
    {
      var j := Tail(m.joints)[k];
      assert Lookup(m, frame, j, ZRotation) == Lookup(m', frame, j, ZRotation);
      assert Lookup(m, frame, j, YRotation) == Lookup(m', frame, j, YRotation);
      assert Lookup(m, frame, j, XRotation) == Lookup(m', frame, j, XRotation);
    }
    assert cols == cols';
  }

  lemma {:induction false} SamplesAgree(m: Bvh, m': Bvh, frame: nat, joint: string, channels: seq<string>)
    requires m'.samples == m.samples
    ensures Samples(m, frame, joint, channels) == Samples(m', frame, joint, channels)
    decreases |channels|
  {
    if |channels| > 0 {
      assert Lookup(m, frame, joint, channels[0]) == Lookup(m', frame, joint, channels[0]);
      SamplesAgree(m, m', frame, joint, channels[1..]);
    }
  }

  /** The try-loop of `parse_bvh`: the first of Zrotation, Yrotation, Xrotation that the joint has, else 0.0. */
  method ResolveRotation(m: Bvh, frame: nat, joint: string) returns (rotVal: real)
    ensures rotVal == Rotation(m, frame, joint)
  {
    rotVal := 0.0;
    var a := 0;
    while a < |RotationFallback|
      invariant a <= |RotationFallback|
      invariant rotVal == 0.0
      invariant FirstPresent(m, frame, joint, RotationFallback[a..]) == Rotation(m, frame, joint)
    {
      var sample := Lookup(m, frame, joint, RotationFallback[a]);
      if sample.Some? {
        rotVal := sample.value;
        return;
      }
      a := a + 1;
    }
  }

  /** The body of the frame loop of `parse_bvh`: the row of one frame, built by extending and appending. */
  method FrameRow(m: Bvh, frame: nat) returns (r: Result<seq<real>, ParseError>)
    ensures r == Row(m, frame)
  {
    var row: seq<real> := [];
    var hipsPos := Samples(m, frame, Hips, RootPosition);
    if hipsPos.Failure? {
      return Failure(hipsPos.error);
    }
    row := row + hipsPos.value;
    var hipsRot := Samples(m, frame, Hips, RootRotation);
    if hipsRot.Failure? {
      return Failure(hipsRot.error);
    }
    row := row + hipsRot.value;
    var rest := Tail(m.joints);
    var k := 0;
    while k < |rest|
      invariant k <= |rest|
      invariant row == hipsPos.value + hipsRot.value + JointColumns(m, frame, rest[..k])
    {
      var rotVal := ResolveRotation(m, frame, rest[k]);
      assert rest[..k + 1] == rest[..k] + [rest[k]];
      row := row + [rotVal];
      k := k + 1;
    }
    assert rest[..k] == rest;
    return Success(row);
  }

  /** `parse_bvh`: a loop over the frames that appends one row per frame; a failing row ends the parse. */
  method ParseBvh(m: Bvh) returns (r: Result<MotionData, ParseError>)
    ensures r == Parse(m)
  {
    var jointNames := m.joints;
    var frames: seq<seq<real>> := [];
    var i := 0;
    while i < m.nframes
      invariant i <= m.nframes
      invariant Assemble(m, i) == Success(frames)
    {
      var frame := FrameRow(m, i);
      if frame.Failure? {
        ParseStopsAtFirstFailingFrame(m, i);
        return Failure(frame.error);
      }
      frames := frames + [frame.value];
      i := i + 1;
    }
    r := Success(MotionData(jointNames, frames, m.frameTime));
  }
}
