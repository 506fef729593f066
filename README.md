# Post-processing of the generated peripheral-access crate

The peripheral-access crate (PAC) used by the simulated SoC's test programs is
generated at build time. The build script `sim_support/rust/pac/build.rs` embeds
the SoC's SVD register map, decodes it as UTF-8, and runs svd2rust on it. It then
cleans the generated `lib.rs` text before saving it as `src/pac.rs`:

1. every `"] "` is rewritten as `"]\n"`;
2. the text is split into lines as Rust's `str::lines` does;
3. a line is dropped when it is exactly one of six svd2rust artefacts (deny-listed
   `#![deny(...)]`, `#![no_main]` and `#![no_std]` attributes);
4. every other line is written to the file, followed by one `"\n"`.

Decoding and generation both happen before the file is created. When either
fails, the build aborts and no file is written.

The project has two modules:

- `PacText` (`pac_text.dfy`) holds the text pass as pure functions: `Replace`,
  `Lines`, `Keep`/`Filter` and `Join`, composed in `PostProcess`, together with
  the lemmas about them.
- `PacBuild` (`pac_build.dfy`) models the build script's `main` as imperative
  code. `OutFile` is the open output file, and its `data` field grows with every
  `Write`. `WriteKeptLines` is the `for line in lib_rs.lines()` loop, with its
  `continue` on denied lines, and it is proved against `Join(Filter(..))`.
  `Build` runs the whole script.

`str::lines` is modelled with its current standard-library behaviour. The text
is cut after each `'\n'`. A `'\r'` directly before that `'\n'` is removed. A
final line without `'\n'` is kept whole, including a trailing bare `'\r'`.
Toolchains before Rust 1.77 also removed that final bare `'\r'`. That only
changes the last line of text that ends in `'\r'`.

The pass is not a plain line filter. The `"] "` rewrite splits lines before
filtering. Splitting removes the `'\r'` of a `"\r\n"` ending. Every written
line ends in `'\n'`, even when the input's last line had no line ending.

## Model

| member | source | states |
|---|---|---|
| `PacText.Replace` | sim_support/rust/pac/build.rs:13 | the rewrite preserves length: each two-character `"] "` becomes the two-character `"]\n"` |
| `PacText.ReplaceAt` | sim_support/rust/pac/build.rs:13 | position by position, the only characters changed are spaces directly after a `']'`, and each of them becomes `'\n'` |
| `PacText.ReplaceRemovesBracketSpace` | sim_support/rust/pac/build.rs:13 | after the rewrite the text contains no `"] "` |
| `PacText.ReplaceFixedPoint` | sim_support/rust/pac/build.rs:13 | the rewrite leaves a text unchanged if and only if the text holds no `"] "` |
| `PacText.ReplaceIdempotent` | sim_support/rust/pac/build.rs:13 | rewriting twice gives the same text as rewriting once |
| `PacText.ReplaceAppend` | sim_support/rust/pac/build.rs:13 | the rewrite of a concatenation is the concatenation of the rewrites, whenever the cut does not fall between a `']'` and the `' '` after it |
| `PacText.ReplaceLineBreak` | sim_support/rust/pac/build.rs:13 | a `'\n'` already in the text cuts it into two parts that are rewritten independently |
| `PacText.Lines` | sim_support/rust/pac/build.rs:26 | `lines()` yields no line exactly for empty text, and no line it yields contains `'\n'` |
| `PacText.LinesSplit` | sim_support/rust/pac/build.rs:26 | a line ended by `'\n'` is split off, without the `'\n'` and without one `'\r'` directly before it |
| `PacText.LinesCrLf` | sim_support/rust/pac/build.rs:26 | `"\r\n"` ends a line exactly like `"\n"`, and the `'\r'` is not part of the line |
| `PacText.LinesUnterminated` | sim_support/rust/pac/build.rs:26 | non-empty text without `'\n'` is a single line, kept whole, including a trailing bare `'\r'` |
| `PacText.LineCount` | sim_support/rust/pac/build.rs:26 | the number of lines is the number of `'\n'`, plus one when the text ends in something other than `'\n'` (so empty text has no line, and a final newline adds no empty line) |
| `PacText.LinesTrailingNewline` | sim_support/rust/pac/build.rs:26 | adding a final `'\n'` to text whose last line is unterminated and whose last character is not `'\r'` does not change its lines |
| `PacText.Keep` | sim_support/rust/pac/build.rs:27 | when every deny entry starts with `'#'`, ends with its only `']'` and holds no `'\n'`, a line without that shape is never dropped |
| `PacText.KeepOffShape` | sim_support/rust/pac/build.rs:16-27 | with the build script's `bad_strings`, a line that does not start with `'#'`, or does not end with its only `']'`, or holds a `'\n'`, is never dropped |
| `PacText.Filter` | sim_support/rust/pac/build.rs:26-30 | the filter never yields more lines than it is given |
| `PacText.FilterSound` | sim_support/rust/pac/build.rs:26-30 | every line the filter lets through is an input line that equals no deny-list entry |
| `PacText.DenyListShape` | sim_support/rust/pac/build.rs:16-23 | each of the six deny strings starts with `'#'`, ends with its only `']'`, and holds no `'\n'` |
| `PacText.KeepNearMiss` | sim_support/rust/pac/build.rs:16-27 | matching is exact, with no trimming, prefix or substring test: a deny string with leading text that does not start with `'#'`, or with trailing text that does not end with `']'`, is kept |
| `PacText.FilterAppend` | sim_support/rust/pac/build.rs:26-30 | filtering a concatenation of line sequences filters each part on its own, so the filter works line by line |
| `PacText.FilterCount` | sim_support/rust/pac/build.rs:26-30 | the output line count is the input line count minus the number of denied lines |
| `PacText.FilterSubsequence` | sim_support/rust/pac/build.rs:26-30 | the kept lines are a subsequence of the input lines, in the original order |
| `PacText.FilterIdentity` | sim_support/rust/pac/build.rs:26-30 | the filter returns its input unchanged if and only if no input line is denied |
| `PacText.FilterIdempotent` | sim_support/rust/pac/build.rs:27-30 | filtering already-filtered lines changes nothing |
| `PacText.Join` | sim_support/rust/pac/build.rs:31-36 | the written text is empty exactly when there are no lines to write, and otherwise ends in `'\n'` |
| `PacText.JoinAppend` | sim_support/rust/pac/build.rs:31-36 | writing two runs of lines one after the other gives the two texts concatenated |
| `PacText.EmitStepAt` | sim_support/rust/pac/build.rs:26-37 | one loop iteration adds the line and a `"\n"` to the output when the line is kept, and adds nothing when it is denied |
| `PacText.LinesOfJoin` | sim_support/rust/pac/build.rs:26-36 | splitting the written text gives back the written lines, when none contains `'\n'` or ends in `'\r'` (`lines()` inverts the write loop) |
| `PacText.JoinOfLines` | sim_support/rust/pac/build.rs:26-36 | for text without `'\r'`, writing its lines gives the text back, with a `'\n'` added when its last line was unterminated (the write loop inverts `lines()`) |
| `PacText.PostProcess` | sim_support/rust/pac/build.rs:13-37 | the whole pass; the written file is empty or ends in `'\n'`, and empty generated text gives an empty file |
| `PacText.PostProcessShape` | sim_support/rust/pac/build.rs:13-37 | the written file is empty or ends in `'\n'`, contains no `"] "`, and every written line is one line that equals no deny-list entry |
| `PacText.PostProcessFiltersJoinedLines` | sim_support/rust/pac/build.rs:13-37 | when the generated text is a sequence of lines that are free of `"] "`, do not end in `'\r'`, and are each ended by `'\n'`, the pass outputs exactly the non-denied lines in the original order, and nothing else changes |
| `PacText.DenyListSurvivesRewrite` | sim_support/rust/pac/build.rs:13-23 | no deny string contains `"] "` or `'\n'` or ends in `'\r'`, so the rewrite leaves each of them unchanged |
| `PacText.NoMatchBeforeEnd` | sim_support/rust/pac/build.rs:12-13 | text whose only `']'` is its last character, followed by `' '`, keeps its content and is ended by a line break, and the rest after the space is rewritten on its own |
| `PacText.DenyEntryDropped` | sim_support/rust/pac/build.rs:12-37 | an attribute of deny-list shape printed as `<attr> <rest>`, with a space after its closing `']'`, is split onto its own line by the rewrite and dropped by the filter: the output equals the output for `<rest>` alone |
| `PacText.DenyListEntryDropped` | sim_support/rust/pac/build.rs:12-37 | the same holds for each of the six entries of `bad_strings` |
| `PacText.PostProcessLines` | sim_support/rust/pac/build.rs:13-37 | for generated text without `'\r'`, reading the written file back with `lines()` gives exactly the kept lines |
| `PacText.PostProcessIdempotent` | sim_support/rust/pac/build.rs:13-37 | for generated text without `'\r'`, running the pass again on its own output changes nothing |
| `PacText.PostProcessPassThrough` | sim_support/rust/pac/build.rs:13-37 | text made of lines that are free of `"] "`, do not end in `'\r'`, are not denied, and are each ended by `'\n'` passes through unchanged |
| `PacBuild.OutFile.Create` | sim_support/rust/pac/build.rs:25 | `File::create` gives an empty file at the given path |
| `PacBuild.OutFile.Write` | sim_support/rust/pac/build.rs:31-36 | a write appends its buffer to the file |
| `PacBuild.PacOutput` | sim_support/rust/pac/build.rs:5-38 | `main` leaves a file exactly when neither decoding nor generation fails, and that file is empty or ends in `'\n'` |
| `PacBuild.AbortReason` | sim_support/rust/pac/build.rs:7-10 | the build stops with invalid UTF-8 exactly when decoding fails, and stops at generation exactly when decoding succeeded and svd2rust failed |
| `PacBuild.WriteKeptLines` | sim_support/rust/pac/build.rs:26-37 | the loop skips denied lines with `continue` and appends each other line with a `"\n"`, so the file gains exactly `Join(Filter(lines))` |
| `PacBuild.Build` | sim_support/rust/pac/build.rs:5-38 | an invalid UTF-8 SVD or a failed svd2rust run aborts the build with that reason and creates no file. Otherwise a new `src/pac.rs` is created that holds exactly `PostProcess` of the generated text |

## Left out

- svd2rust itself (`svd2rust::generate`, build.rs:9) is foreign code. It is a parameter `generate: string -> Option<string>`, where `None` means that generation failed. The `Target::RISCV` and `false` arguments are not modelled.
- UTF-8 validation of the embedded SVD bytes (build.rs:7-8) is not a decoder here. The decoded text is a parameter `Option<string>`, where `None` means invalid UTF-8.
- The `cargo:rerun-if-changed` directive and the "Found bad string" message (build.rs:6, 28) only print, so they are not modelled.
- Failed `File::create` or `write` calls (build.rs:25, 33, 36) are not modelled. An I/O error panics mid-loop and can leave a partly written file.
- PacBuild.OutFile.Write: `write` is modelled as writing the whole buffer. The source ignores the byte count that `write` returns, so a short write would silently lose the rest of a line.
- The file holds characters, not bytes. The UTF-8 encoding done by `line.as_bytes()` is not modelled.
- `str::lines` behaviour on older Rust toolchains, which also removed a bare `'\r'` at the end of the text, is not modelled (see above).
- `sim_support/sim_bench.py` is not part of this model. It builds the SoC through migen/LiteX, uses floating-point clock frequencies and runs shell commands. The layout of its status register is assigned inside library code that is not shown.
- The test programs `sim/spi_basic/test/src/main.rs` and `sim/sha2/testbench/src/main.rs` are not part of this model. They are straight-line register accesses through generated accessors and the `volatile` crate, neither of which is visible here. Their busy-waits on the hardware `tip` flag end only if the simulated hardware clears it.
- The register-map model, the accessor code generator's output, field-width checks and volatile access ordering all live in svd2rust and library crates that are not shown, so they are not modelled.
