# BVH motion-capture parsing, modelled in Dafny

This project models `utils/parse_bvh.py`, the part of the repository that turns a
Biovision Hierarchy (BVH) motion-capture file into a flat table of numbers, one
row per frame:

- the frame assembler `parse_bvh`: for every frame, the X, Y, Z position and the
  Z, X, Y rotation of the joint literally named `"Hips"`, then one rotation value
  per remaining joint, chosen as the first present of Zrotation, Yrotation,
  Xrotation, or `0.0` when none is present; a missing root channel aborts the
  whole parse;
- the default output path `bvh_path.replace(".bvh", "_parsed.npy")` and the rule
  that a non-empty explicit output path wins;
- the filter of `get_available_bvh_files`, which keeps the walked files whose
  lower-cased name ends in `.bvh`, joined with their directory, in walk order.

Files:

- `wrappers.dfy` — `Option` and `Result` (with `:-` support).
- `bvh_data.dfy` — module `BvhData`: the parsed file as the assembler sees it
  (`Bvh`: frame count, joint names in `get_joints()` order, frame time, and a
  partial sample lookup keyed by frame, joint and channel) and the `KeyError`
  a missing lookup raises.
- `frame_assembly.dfy` — module `FrameAssembly`: specification functions
  (`Samples`, `FirstPresent`, `Rotation`, `JointColumns`, `Row`, `Assemble`,
  `Parse`), the imperative methods `ResolveRotation`, `FrameRow` and `ParseBvh`
  proved equal to them, and lemmas on the result.
- `output_path.dfy` — module `OutputPath`: `str.replace` as a left-to-right
  scan, the default output path and the explicit-path choice, with lemmas.
- `bvh_files.dfy` — module `BvhFiles`: the nested filter loop as a method,
  proved equal to a per-directory specification, which is in turn proved equal
  to a flat "filter the walked files, then join" reference definition.

## What the code does

- The code defines no error types of its own. The only failure is the `KeyError` that escapes a
  root-channel lookup (lines 42 and 46 are outside any `try`); it is modelled as
  `Failure(KeyError(frame, joint, channel))`, naming the first missing channel of
  the earliest failing frame, with no partial result.
- The row width is `6 + |joint_names[1:]|`. It is `|joint_names| + 5` only when
  there is at least one joint; with no joints it is 6 (`RowWidth`).
- The root values always come from the literal name `"Hips"`, not from the first
  joint of the hierarchy; the first joint gets no column of its own whatever its
  name (`FirstJointHasNoColumn`).

## Model

| member | source | states |
|---|---|---|
| `FrameAssembly.Samples` | utils/parse_bvh.py:42-47 | the root channels are read in the listed order; the result exists iff every channel is present, holds each channel's sample at its index, and otherwise the error names the joint, the frame and the first missing channel |
| `FrameAssembly.FirstPresent` | utils/parse_bvh.py:52-58 | the value is the sample of the first present axis in the given order, later axes are never used after a hit, and it is exactly 0.0 when no axis is present |
| `FrameAssembly.Rotation` | utils/parse_bvh.py:53-56 | Zrotation wins when present even if Y and X exist; Yrotation only when Z is absent; Xrotation only when Z and Y are absent; 0.0 when all three are absent |
| `FrameAssembly.ResolveRotation` | utils/parse_bvh.py:52-58 | the try-loop with `break` returns the joint's resolved rotation (`Rotation`) |
| `FrameAssembly.JointColumns` | utils/parse_bvh.py:50-59 | one column per joint, in list order, column k being joint k's resolved rotation |
| `FrameAssembly.RowWidth` | utils/parse_bvh.py:41-59 | the row width is `|joints| + 5` when there is a joint and 6 for an empty joint list |
| `FrameAssembly.Row` | utils/parse_bvh.py:39-61 | a frame's row fails only with a `KeyError` for "Hips" in that same frame |
| `FrameAssembly.RowSucceedsIff` | utils/parse_bvh.py:42-47 | a row exists iff "Hips" has all six root channels in that frame; otherwise the error names the first missing one in the order Xposition, Yposition, Zposition, Zrotation, Xrotation, Yrotation |
| `FrameAssembly.RowLayout` | utils/parse_bvh.py:41-59 | entries 0..2 are Hips' X, Y, Z position, entries 3..5 Hips' Z, X, Y rotation, entry c >= 6 the resolved rotation of joint c-5, and the width is `RowWidth` |
| `FrameAssembly.FrameRow` | utils/parse_bvh.py:39-61 | the loop body that extends and appends builds exactly `Row` for its frame, or returns its error |
| `FrameAssembly.Assemble` | utils/parse_bvh.py:37-61 | n frames give n rows, row i being frame i's row, iff every frame's row exists; otherwise the error is that of the earliest failing frame and all frames before it succeeded |
| `FrameAssembly.Parse` | utils/parse_bvh.py:33-69 | on success the joint names are the hierarchy's in order, the frame time is passed through, there are `nframes` rows and row i is frame i's row; on failure the error is the earliest failing frame's |
| `FrameAssembly.ParseSucceedsIff` | utils/parse_bvh.py:38-47 | the parse succeeds iff every frame has all six root channels of "Hips" |
| `FrameAssembly.ParsedRow` | utils/parse_bvh.py:38-61 | after a successful parse every row has width `RowWidth`, the six root values in X, Y, Z position then Z, X, Y rotation order, and the per-joint rotations from joint 1 on |
| `FrameAssembly.ParseFailure` | utils/parse_bvh.py:42-47 | a failed parse is a `KeyError` for "Hips" in a valid frame naming its first missing root channel, every earlier frame being complete |
| `FrameAssembly.ThreeJointExample` | utils/parse_bvh.py:41-59 | Hips, Spine with only a Y rotation, Head with none: rows of width 8, Spine's column is its Y value and Head's is 0.0 |
| `FrameAssembly.ParseStopsAtFirstFailingFrame` | utils/parse_bvh.py:38-47 | a frame that fails after all earlier frames succeeded makes the whole parse fail with that frame's error and no rows |
| `FrameAssembly.FirstJointHasNoColumn` | utils/parse_bvh.py:42-50 | renaming the first joint changes neither whether the parse succeeds nor any row |
| `FrameAssembly.RowsAgree` | utils/parse_bvh.py:42-59 | rows depend only on the samples and on the joints after the first |
| `FrameAssembly.ParseBvh` | utils/parse_bvh.py:36-69 | the frame loop returns exactly `Parse`: the dataset, or the first error and nothing else |
| `OutputPath.Replace` | utils/parse_bvh.py:98 | `str.replace` with a non-empty pattern: replacing a pattern by itself changes nothing, and a replacement at least as long as the pattern never shortens the string; with `ReplaceAtFirstOccurrence` and `ReplaceWithoutOccurrence` it is the leftmost, non-overlapping replacement |
| `OutputPath.DefaultOutputPath` | utils/parse_bvh.py:136 | `bvh_path.replace(".bvh", "_parsed.npy")` (also line 98): never shorter than the input, and the input unchanged when it contains no ".bvh"; with `DefaultOutputPathUnchangedIff` the input is unchanged iff it contains no ".bvh" |
| `OutputPath.ChooseOutputPath` | utils/parse_bvh.py:136 | a non-empty explicit output path is used as given; a missing or empty one gives the default derived path (the same expression is at line 98) |
| `OutputPath.ReplaceWithoutOccurrence` | utils/parse_bvh.py:98 | replacing in a string without the pattern returns it unchanged |
| `OutputPath.ReplaceGrows` | utils/parse_bvh.py:98 | with a replacement at least as long as the pattern the result never shrinks, and grows by at least the difference when the pattern occurs |
| `OutputPath.DefaultOutputPathUnchangedIff` | utils/parse_bvh.py:136 | the default output path equals the input path iff the input contains no ".bvh" |
| `OutputPath.ReplaceAtFirstOccurrence` | utils/parse_bvh.py:98 | the leftmost occurrence is replaced and the scan resumes right after it, so matches never overlap |
| `OutputPath.DefaultOutputPathOfBvhFile` | utils/parse_bvh.py:98 | `base.bvh`, with no ".bvh" in `base`, becomes `base_parsed.npy` |
| `OutputPath.WalkBvhExample` | utils/parse_bvh.py:136 | "walk.bvh" becomes "walk_parsed.npy" |
| `BvhFiles.IsBvhName` | utils/parse_bvh.py:119 | `file.lower().endswith('.bvh')`: a name is kept iff it has at least four characters and its last four, lower-cased, are ".bvh", so ".BVH" and ".Bvh" are kept (ASCII case only) |
| `BvhFiles.Join` | utils/parse_bvh.py:120 | the joined path ends with the file name |
| `BvhFiles.GetAvailableBvhFiles` | utils/parse_bvh.py:115-122 | the nested loops return exactly `Listing` of the walk |
| `BvhFiles.DirListingMembership` | utils/parse_bvh.py:118-120 | a path is kept for a directory iff it is the directory joined with one of its files whose lower-cased name ends in ".bvh" |
| `BvhFiles.ListingMembership` | utils/parse_bvh.py:117-122 | a path is listed iff it is some walked directory joined with one of its files whose lower-cased name ends in ".bvh" |
| `BvhFiles.ListedPathsAreBvh` | utils/parse_bvh.py:119-120 | every listed path, lower-cased, ends in ".bvh" |
| `BvhFiles.ListingIsFilteredWalk` | utils/parse_bvh.py:117-122 | the listing equals the walked files, in walk order, filtered by name and joined, so each kept file appears exactly once |

## Left out

- The BVH text parser (`Bvh(...)`, `get_joints`, `frame_joint_channel`, `nframes`, `frame_time`) belongs to the third-party `bvh` library, which is not part of this model; the parsed file is the `Bvh` datatype and a missing sample is the `KeyError` the code expects.
- Exceptions other than that `KeyError` (an out-of-range frame inside the library, a `ValueError` from `float(...)`) are not modelled.
- Floating point: `float(...)`, the `np.float32` cast of the rows (line 63) and the duration in `save_as_npy` (line 82); samples and the frame time are `real` and the rows keep them exactly.
- File and console I/O: `open` (line 29), `os.path.exists` and its `FileNotFoundError` (lines 93, 131), `np.save` (line 79), every `print`, `argparse` and `main`.
- `os.walk` (line 117): the walk is given as a sequence of entries; its traversal order and the `dirs` lists are taken as given.
- BvhFiles.Lower: lower-cases ASCII letters only, where Python's `str.lower` is Unicode-aware.
- OutputPath.Replace: requires a non-empty pattern; Python's behaviour for an empty pattern is not modelled because the code only replaces ".bvh".
- BvhFiles.Join: POSIX `os.path.join` only; the Windows rules (separator, drive letters) are not modelled.
- OutputPath.ChooseOutputPath: the explicit output path is an `Option<string>`; other falsy Python values are not modelled.
- `simulate_ironcub3.py` is not part of this model: simulation setup, asset loading and the viewer loop have no logic of their own.
