# Update recorder

A model of the schematics tree's update recorder (`UpdateRecorderBase` and
its byte-order-mark variant `UpdateRecorderBom`). A recorder is created from
a file entry's content. It records positional edits against that immutable
snapshot: `insertLeft(pos, text)`, `insertRight(pos, text)` and
`remove(pos, len)`. `apply(buffer)` then produces the edited content. A
leading UTF-8 byte-order mark (U+FEFF, the bytes EF BB BF of section 6 of
RFC 3629) is split off when the recorder is created. Edit offsets count from
after the mark, and the mark is re-emitted unchanged in front of the output.

The implementation file `recorder.ts` is not part of this model. The
behaviour modelled is the one its test file pins down. The model is an
abstract recorder:

- `Octets`: bytes, and the ASCII encoding the tests' literals go through.
- `Snapshots`: mark detection (`Capture`) and the snapshot
  (`bom`, logical `text`).
- `Ledger`: the append-only list of edits `Insert(pos, bias, text)` and
  `Remove(pos, len)`. It defines what a ledger anchors at an offset and which
  bytes it removes.
- `Applier`: the reference meaning of `apply`. The logical content of length
  `n` has anchors `0..n`. Anchor `o` contributes its left-biased texts, then
  its right-biased texts, then content byte `o` unless a remove covers it.
  `Render` concatenates the anchors in offset order. The lemmas say how one
  more recorded edit changes that output.
- `Recorder`: the recorder itself (`CreateFromFileEntry`, `InsertLeft`,
  `InsertRight`, `Remove`, `Output`). `Apply` is a two-pass method (bucket the
  ledger per anchor, then emit anchor by anchor) proved equal to `Output`.
- `RecorderSpec`: every asserted test case, stated over the model.

A lone insert of either bias at offset `o` lands between byte `o - 1` and
byte `o` (`recorder_spec.ts:14-32`). Four behaviours are modelling choices.
The tests do not exercise them:

- At one anchor, the left texts come before the right texts. No test records
  both biases at the same anchor.
- Several inserts of the same bias at one anchor come out in call order.
- Overlapping removes elide the union of their ranges.
- A remove never drops an insert, whether it was recorded before the remove
  or after it. The tests only record inserts after the remove.

## Model

| member | source | states |
|---|---|---|
| Snapshots.Capture | packages/angular_devkit/schematics/src/tree/recorder_spec.ts:51-54 | The mark is detected exactly when the content starts with EF BB BF. The stored mark is then exactly those three bytes. Mark plus logical content is the original content. |
| Recorder.Output | packages/angular_devkit/schematics/src/tree/recorder_spec.ts:74-75 | The output of `apply` starts with the snapshot's mark. |
| Recorder.OutputAround | packages/angular_devkit/schematics/src/tree/recorder_spec.ts:20-21 | The meaning of `apply`, at any anchor `pos`: the mark and the output of the anchors before `pos`, then the left texts at `pos`, the right texts there, the content byte at `pos` unless a remove covers it, then the output of the anchors after `pos`. Anchor 0 has only the mark before it; the end anchor has nothing after it. |
| Recorder.CreateFromFileEntry | packages/angular_devkit/schematics/src/tree/recorder_spec.ts:46-64 | Creation accepts any content, including empty content and a lone mark. The ledger starts empty and valid. The snapshot is the one mark detection captures: it reproduces the content, and its mark is the three bytes EF BB BF iff the content starts with them, otherwise empty, so offsets count from after the mark. Before any edit the output is the content unchanged. |
| Recorder.InsertLeft | packages/angular_devkit/schematics/src/tree/recorder_spec.ts:19 | Recording keeps the snapshot. The earlier ledger is a proper prefix of the new one, so nothing recorded is lost or changed. Validity is preserved. |
| Recorder.InsertRight | packages/angular_devkit/schematics/src/tree/recorder_spec.ts:29 | The same append-only guarantee for `insertRight`. |
| Recorder.Remove | packages/angular_devkit/schematics/src/tree/recorder_spec.ts:39 | The same append-only guarantee for `remove`. |
| Recorder.InsertLeftPlacement | packages/angular_devkit/schematics/src/tree/recorder_spec.ts:14-22 | The output before and after the call splits the same way around anchor `pos`. The text goes after the left texts already there and before every right text and the content byte at `pos`. Everything before and after the anchor is unchanged. |
| Recorder.InsertRightPlacement | packages/angular_devkit/schematics/src/tree/recorder_spec.ts:24-32 | Like the left case, but the text goes after every text already at `pos`, left ones included, and before the content byte there. |
| Recorder.RemovePlacement | packages/angular_devkit/schematics/src/tree/recorder_spec.ts:34-44 | `remove(pos, len)` turns the output of [pos, pos+len) into just the texts inserted at anchors inside it, in anchor order. Its content bytes go; the output before and after the range stays. |
| Recorder.Apply | packages/angular_devkit/schematics/src/tree/recorder_spec.ts:20 | Given the buffer the recorder was created from, `apply` returns the mark followed by the reference output of the ledger. |
| Recorder.Collect | packages/angular_devkit/schematics/src/tree/recorder_spec.ts:42 | One pass over the ledger in call order fills per-anchor buckets. Each left and right bucket equals the anchored text of that anchor and bias. Each removed flag holds iff some remove covers the byte. |
| Recorder.Emit | packages/angular_devkit/schematics/src/tree/recorder_spec.ts:42 | Emitting the buckets anchor by anchor gives exactly the reference output. |
| Recorder.BomTransparency | packages/angular_devkit/schematics/src/tree/recorder_spec.ts:67-76 | For content without its own mark, the same ledger on the marked content yields the mark followed by the output for the bare content. Offsets count after the mark, which is untouched. |
| Recorder.InsertNeverLost | packages/angular_devkit/schematics/src/tree/recorder_spec.ts:39-43 | In a valid recorder, every recorded insert's text occurs contiguously in the output at its own anchor. It sits right behind the mark, the output of the anchors before it, the left texts there if it is right-biased, and the texts of its bias recorded before it. Whatever was removed, this holds because a remove elides content bytes only (the fourth modelling choice). |
| Applier.AppendInsert | packages/angular_devkit/schematics/src/tree/recorder_spec.ts:19 | Recording an insert splices its text into anchor `p`'s slot right after the earlier texts of its bias. A left text lands before all right texts. The slots of all other anchors are unchanged. |
| Applier.AppendRemove | packages/angular_devkit/schematics/src/tree/recorder_spec.ts:39 | After recording `remove(p, l)`, the output is the old output before `p`, then the texts anchored in [p, p+l), then the old output from `p+l` on. |
| Applier.ElidedFrame | packages/angular_devkit/schematics/src/tree/recorder_spec.ts:39-43 | A ledger that agrees with another outside [p, q) and elides every byte of [p, q) while keeping its anchored texts outputs only those texts there. |
| Applier.SingleInsert | packages/angular_devkit/schematics/src/tree/recorder_spec.ts:14-32 | A lone insert of either bias at `p` gives the content up to `p`, then the text, then the rest of the content. |
| Applier.BiasSymmetry | packages/angular_devkit/schematics/src/tree/recorder_spec.ts:24-32 | With no other edit, a lone left insert and a lone right insert at the same anchor give the same output. |
| Applier.SingleRemove | packages/angular_devkit/schematics/src/tree/recorder_spec.ts:39 | A lone `remove(p, l)` gives the content with exactly the bytes of [p, p+l) dropped. |
| Applier.InsertAtRemovedStart | packages/angular_devkit/schematics/src/tree/recorder_spec.ts:39-40 | After `remove(p, m)`, a right insert at `p` takes the place of the removed bytes. |
| Applier.InsertAtRemovedEnd | packages/angular_devkit/schematics/src/tree/recorder_spec.ts:39-43 | After that, a right insert at `p+m`, the end of the removed range, follows the first text. Both survive in offset order, before the rest of the content. |
| Applier.NoEdits | packages/angular_devkit/schematics/src/tree/recorder_spec.ts:56-59 | With an empty ledger the output is the logical content itself. |
| Applier.InsertSurvives | packages/angular_devkit/schematics/src/tree/recorder_spec.ts:40-43 | Every insert in the ledger whose anchor is inside the content has its text as a contiguous slice of the output. The slice starts behind the output of the earlier anchors, the left texts at its anchor if it is right-biased, and the texts of its bias recorded before it. |
| Applier.SurvivesAt | packages/angular_devkit/schematics/src/tree/recorder_spec.ts:40-43 | A text that is part of what the ledger anchors at `p` with some bias is a contiguous slice of the output, inside the slot of `p`: behind the earlier anchors' output, behind the left texts if the bias is right, and behind what precedes it in its bias. |
| Ledger.AnchoredHas | packages/angular_devkit/schematics/src/tree/recorder_spec.ts:40-41 | A recorded insert's text sits inside the anchored text of its anchor and bias. Exactly the texts recorded before it at that anchor and bias come first, and exactly the texts recorded after it there follow. |
| RecorderSpec.WorksForSimpleFiles | packages/angular_devkit/schematics/src/tree/recorder_spec.ts:14-22 | `insertLeft(5, " beautiful")` on "Hello World" applies to "Hello beautiful World". |
| RecorderSpec.WorksForSimpleFilesRight | packages/angular_devkit/schematics/src/tree/recorder_spec.ts:24-32 | `insertRight(5, " beautiful")` on "Hello World" applies to "Hello beautiful World". |
| RecorderSpec.RemoveThenBoundaryInserts | packages/angular_devkit/schematics/src/tree/recorder_spec.ts:38-42 | On any content without a mark, `remove(p, m)`, then `insertRight(p, t)`, then `insertRight(p+m, u)` applies to the content before `p`, `t`, `u`, then the content from `p+m` on. |
| RecorderSpec.MultipleAdjacentInserts | packages/angular_devkit/schematics/src/tree/recorder_spec.ts:34-44 | On "Hello beautiful World", `remove(6, 9)`, `insertRight(6, "amazing")` and `insertRight(15, " and fantastic")` apply to "Hello amazing and fantastic World". |
| RecorderSpec.MarkedRecorder | packages/angular_devkit/schematics/src/tree/recorder_spec.ts:51-54 | A recorder created from marked content stores the mark and counts offsets from after it. |
| RecorderSpec.CanCreatePlain | packages/angular_devkit/schematics/src/tree/recorder_spec.ts:46-49 | Creating from "hello" succeeds: no mark, logical content "hello", nothing recorded. |
| RecorderSpec.CanCreateWithBom | packages/angular_devkit/schematics/src/tree/recorder_spec.ts:51-54 | Creating from the mark plus "hello" succeeds: the mark is detected and stripped, nothing recorded. |
| RecorderSpec.SupportsEmptyFiles | packages/angular_devkit/schematics/src/tree/recorder_spec.ts:56-59 | Creating from empty content succeeds: no mark, logical length 0, empty output. |
| RecorderSpec.SupportsEmptyFilesWithBom | packages/angular_devkit/schematics/src/tree/recorder_spec.ts:61-64 | Creating from the lone mark succeeds: mark detected, logical length 0, output exactly the mark. |
| RecorderSpec.BomWorksForSimpleFiles | packages/angular_devkit/schematics/src/tree/recorder_spec.ts:67-76 | With the mark before "Hello World", `insertLeft(5, " beautiful")` counts from after the mark and applies to the mark followed by "Hello beautiful World". |

## Left out

- `packages/angular/cli/src/commands/deploy/cli.ts`: static command configuration with no algorithmic content.
- `recorder.ts` is not part of this model. Only its observable contract, as the tests assert it, is modelled.
- `SimpleFileEntry`, `normalize` and the file tree that supplies and stores buffers: I/O and path plumbing. An entry is modelled as its content bytes.
- `Buffer.from` and `toString`: the model works on bytes. `Octets.Ascii` encodes only the tests' ASCII literals, one byte per character.
- The `instanceof UpdateRecorderBase` checks and the dispatch between the plain and the mark-aware recorder: one recorder holds a possibly empty mark prefix.
- Marks other than the UTF-8 one (UTF-16, UTF-32) are not detected: the tests only use U+FEFF encoded as UTF-8.
- Out-of-range positions and negative lengths are excluded by `requires` on `InsertLeft`, `InsertRight` and `Remove` (lengths are `nat`). The model has no error path for them, and the tests do not exercise one.
- Recorder.Apply: the check that `apply` receives the original buffer is the `requires` `buffer == r.snapshot.Content()`. There is no mismatch error path.
- Recording mutates the recorder in place in the source. Here each recording call returns the new recorder value.
- Calling `apply` twice giving identical results follows from `Apply`'s postcondition fixing the output. It is not stated as a separate lemma.
