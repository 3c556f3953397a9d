# social-video-transcriber, modelled in Dafny

The repository has two cooperating scripts.

- `watch_folder.py` polls an inbox directory. It takes regular files with a
  media suffix, waits until their size stops changing, hands each one to the
  transcriber, and renames it into a processed directory once the transcriber
  succeeds.
- `x_transcribe.py` turns one media file into a plain-text transcript
  (`<stem>.txt`) and a SubRip subtitle file (`<stem>.srt`). It first extracts
  a WAV when the input is a video.

This project models the logic of both scripts and proves what they promise.
The clock, the sleeps, the outcome of the transcriber process and the
outcomes of the operating system's `rename` and `remove` become oracles
passed in as parameters; the speech model's segments are an input.

| file | module | what it models |
|---|---|---|
| `pathnames.dfy` | `PathNames` | `Path.name`, `Path.suffix`, `Path.stem`, `path / name` and ASCII `str.lower` |
| `watch_folder.dfy` | `WatchFolder` | `VIDEO_EXTS` eligibility, `file_stable` as a loop over an oracle of `stat` results, and one pass of the poll loop as `Folders.Tick` over a class holding the watch and processed directories |
| `srt_time.dfy` | `SrtTime` | `fmt_srt` on whole seconds plus milliseconds, and a parser that inverts it |
| `transcribe.dfy` | `Transcribe` | output naming, the audio/video choice, the WAV clean-up decision, `str.strip`, and the loop that writes the `.txt` and `.srt` bodies |
| `handoff.dfy` | `Handoff` | how the watcher's suffix set and the transcriber's audio set fit together |

The imperative parts keep their form:

- `WatchFolder.FileStable` is a `while` loop with early returns. It is proved
  equal to the function `Sampling`.
- `WatchFolder.Folders.Tick` loops over the listing and updates the two map
  fields in place. It is proved equal to the function `Run`, and it returns
  the entries it handed to the transcriber.
- `Transcribe.WriteTranscript` accumulates the two file bodies. It is proved
  equal to `TxtOf` and `SrtOf`.

The properties are then proved as lemmas about those functions.

`file_stable` answers true as soon as two consecutive reads agree
(`watch_folder.py:19-20`); `WatchFolder.StableIffSettled` states exactly that.

## Model

| member | source | states |
|---|---|---|
| PathNames.Join | x_transcribe.py:82-83 | `dir / name` has `dir` as its prefix and `name` as its final component |
| PathNames.LowerFacts | x_transcribe.py:85 | `str.lower` on ASCII leaves no upper-case letter, turns each upper-case letter into its lower-case partner, keeps every other character, and is idempotent |
| PathNames.StemSuffixSplit | x_transcribe.py:81 | the stem followed by the suffix is the whole name; a suffix is empty or a dot followed by at least one non-dot |
| PathNames.AppendedExtension | x_transcribe.py:82-83 | a non-empty stem with `.txt`/`.srt`/`.wav` appended has exactly that suffix and gives back the same stem |
| PathNames.StemNonEmpty | x_transcribe.py:81 | a non-empty name has a non-empty stem (a leading dot is not a suffix) |
| PathNames.LowerSuffixIs | watch_folder.py:67 | `name.suffix.lower() == ext` holds exactly when the name is longer than `ext` and its tail, lower-cased, spells `ext` |
| WatchFolder.VideoExtsAreExtensions | watch_folder.py:9 | every entry of `VIDEO_EXTS` is a lower-case dot-extension that `suffix` can produce |
| WatchFolder.EligibleIffMediaName | watch_folder.py:64-68 | an entry is taken iff it is a regular file whose name ends, in any letter case, in a media extension with at least one character before it |
| WatchFolder.EligibilityExamples | watch_folder.py:65-68 | `clip.MP4` is taken when it is a regular file; `notes.txt`, the dot-file `.mp4` and every non-regular entry are never taken |
| WatchFolder.FileStable | watch_folder.py:12-23 | the loop with early returns gives the verdict and read count of the specification `Sampling` |
| WatchFolder.SampleFromOutcome | watch_folder.py:13-23 | from any read on, the reads stop at the first missing or repeated size or when the budget runs out, and the verdict is true exactly when the last read repeated the previous size |
| WatchFolder.SamplingOutcome | watch_folder.py:13-23 | at most `checks` reads (none when `checks <= 0`), no read before the last ends the sampling, and stable iff the last read is present and equals the one before it |
| WatchFolder.StableIffSettled | watch_folder.py:19-21 | stable iff some read `m < checks` (never the first, since `prev` starts at -1) repeats the size of read `m - 1` and every read up to `m` found the file |
| WatchFolder.AtMostOneCheck | watch_folder.py:14 | with `checks <= 1` the answer is always false |
| WatchFolder.MissingStops | watch_folder.py:15-18 | a missing file ends the sampling at that read, with answer false and no error |
| WatchFolder.GrowingFile | watch_folder.py:14-23 | a file whose size differs on every read is not stable, after exactly `checks` reads |
| WatchFolder.SettledFile | watch_folder.py:19-20 | a file present and unchanged over its first two reads is stable after two reads |
| WatchFolder.StaticIsStable | watch_folder.py:69 | with the default three reads, a file of constant size is stable |
| WatchFolder.GrowingIsUnstable | watch_folder.py:69 | with the default three reads, a steadily growing file is not stable, after three reads |
| WatchFolder.Folders.Tick | watch_folder.py:64-89 | the in-place pass over the listing leaves the directories as `Run` says and returns the entries handed over, as `Dispatched` says |
| WatchFolder.RunShrinksWatch | watch_folder.py:85-89 | a tick never adds to the watch directory nor changes an entry that stays, and never removes from the processed directory |
| WatchFolder.RunMovesExactly | watch_folder.py:63-91 | after a tick the watch directory is the old one minus exactly the eligible, stable, successfully processed and renamed files; those are in the processed directory under the same name, and nothing else changed |
| WatchFolder.StepMovesExactly | watch_folder.py:79-89 | one listed entry keeps that relation between the old directories, the current ones and the names moved so far |
| WatchFolder.SameVerdicts | watch_folder.py:65-69 | an entry not yet moved gets the same filter and stability verdicts as before the tick |
| WatchFolder.NoFileLost | watch_folder.py:79-89 | no file of the watch directory is lost: each ends the tick unchanged in watch or in processed, and the names of both directories together are unchanged |
| WatchFolder.SameNameReplaced | watch_folder.py:87 | moving `a.mp4` into a processed directory that already holds an `a.mp4` replaces the earlier processed file |
| WatchFolder.DispatchedExactly | watch_folder.py:64-80 | the entries handed to the transcriber are, in listing order, exactly the eligible regular media files judged stable |
| WatchFolder.DispatchedOnlyEligible | watch_folder.py:64-80 | for any listing, everything handed over was an eligible regular media file that was judged stable |
| WatchFolder.MovedFromListing | watch_folder.py:85-87 | a moved name is a listed watch entry whose probe moved it, and every such probe's name is moved |
| WatchFolder.NextNotMovedYet | watch_folder.py:64 | in a listing with distinct names, the next entry has not been moved earlier in the tick |
| WatchFolder.CandidatesContain | watch_folder.py:64-80 | every listed entry that passes the filters and is stable is among the candidates |
| WatchFolder.StaysUnlessMoved | watch_folder.py:79-89 | a watch entry that is not moved stays in the watch directory unchanged |
| WatchFolder.FailureLeavesInPlace | watch_folder.py:79-83 | when the transcriber fails, the file was handed over and stays in watch unchanged for the next tick |
| WatchFolder.RenameErrorLeavesInPlace | watch_folder.py:85-89 | when the rename fails, the error is swallowed and the file stays in watch unchanged, pending another dispatch |
| WatchFolder.MovedIsPermanent | watch_folder.py:85-89 | a file moved in one tick stays out of watch and in processed after a later tick, and is never handed over again |
| WatchFolder.NothingToDispatch | watch_folder.py:64 | an empty watch directory hands nothing over |
| WatchFolder.MediaName | watch_folder.py:67 | a non-empty stem followed by a media extension has that extension as its lower-cased suffix |
| WatchFolder.TwoFileScenario | watch_folder.py:63-91 | `a.mp4` (static) is handed over and moved, while `b.mp3` (growing) stays; the next tick sees only `b.mp3`, judges it afresh and leaves it |
| WatchFolder.OneFileTwice | watch_folder.py:63-91 | one stable eligible file is handed over once and moved; a second tick hands nothing over |
| WatchFolder.RetryAfterFailure | watch_folder.py:79-83 | a file whose first run fails and second succeeds is handed over exactly twice and ends in processed |
| SrtTime.DigitsWellFormed | x_transcribe.py:62 | `str(n)` is a non-empty string of digits without a leading zero |
| SrtTime.ValueOfDigits | x_transcribe.py:62 | reading back `str(n)` gives `n` |
| SrtTime.Value | x_transcribe.py:18 | a string of `k` digits denotes a number below `10^k` |
| SrtTime.ZerosPrefixValue | x_transcribe.py:18 | leading zeros do not change the value |
| SrtTime.DigitsWithin | x_transcribe.py:18 | a number below `10^k` has at most `k` digits |
| SrtTime.PaddedFacts | x_transcribe.py:18 | `{n:0wd}` is all digits, exactly `w` wide unless `n` needs more, and still denotes `n` |
| SrtTime.ClockOf | x_transcribe.py:15-17 | `hh*3600 + mm*60 + ss == total` with `mm < 60` and `ss < 60` |
| SrtTime.FieldWidths | x_transcribe.py:18 | minutes, seconds and milliseconds are 2, 2 and 3 digits wide; hours at least 2 |
| SrtTime.FmtSrtShape | x_transcribe.py:15-18 | digits everywhere except `:` ten and seven places from the end and `,` four places from the end; exactly 12 characters `HH:MM:SS,mmm` while the hours stay below 100 |
| SrtTime.FieldPlaces | x_transcribe.py:18 | where each field of `hh:mm:ss,mmm` lies, counted from the end |
| SrtTime.ParseAssembled | x_transcribe.py:18 | parsing an assembled `hh:mm:ss,mmm` reads each field back |
| SrtTime.FmtSrtRoundTrip | x_transcribe.py:11-18 | parsing the formatted timestamp gives back the time, so no two times format alike |
| Transcribe.OutputNaming | x_transcribe.py:81-83 | both outputs sit directly in the output directory, carry the input's stem with suffixes `.txt` and `.srt`, and differ |
| Transcribe.AudioChoice | x_transcribe.py:85-90 | the model reads the input itself iff its lower-cased suffix is an audio suffix; otherwise a WAV is extracted to `<out>/<stem>.wav` |
| Transcribe.WavIsNotInput | x_transcribe.py:89 | the extracted WAV path is never the input path |
| Transcribe.CleanupDecision | x_transcribe.py:102 | the WAV is removed iff the input is not audio and `--keep-wav` is unset, and the removed file is never the input or a transcript |
| Transcribe.AfterCleanup | x_transcribe.py:102-106 | clean-up removes at most the WAV, removes it when planned and the removal works, and otherwise changes nothing |
| Transcribe.CleanupKeepsInputAndOutputs | x_transcribe.py:102-106 | clean-up never deletes the input or either transcript |
| Transcribe.TrimStartFacts | x_transcribe.py:58 | left stripping keeps a suffix, drops only whitespace, and leaves no leading whitespace |
| Transcribe.TrimEndFacts | x_transcribe.py:58 | right stripping keeps a prefix, drops only whitespace, and leaves no trailing whitespace |
| Transcribe.StripIsTrimmedSlice | x_transcribe.py:58 | `strip()` gives a slice with only whitespace cut from both ends, neither starting nor ending in whitespace |
| Transcribe.StripEmptyIffBlank | x_transcribe.py:58-59 | a text strips to nothing iff it is all whitespace |
| Transcribe.WriteTranscript | x_transcribe.py:56-63 | the loop writes exactly `TxtOf` and `SrtOf` of all segments |
| Transcribe.NumberedIsConcat | x_transcribe.py:57 | a numbered loop writes its numbered pieces in order |
| Transcribe.SrtIsNumberedCues | x_transcribe.py:57-63 | the subtitle body is one cue per segment, numbered 1, 2, 3, ..., in segment order, blank segments included |
| Transcribe.JoinedIsKeptLines | x_transcribe.py:58-60 | writing each text on its own line and skipping empty ones writes the non-empty texts one per line |
| Transcribe.TxtIsKeptLines | x_transcribe.py:57-60 | the text body is exactly the stripped non-empty segment texts, in order, each followed by a newline |
| Transcribe.KeptExactly | x_transcribe.py:58-60 | the kept texts are the non-empty texts of the segments, and every non-empty one is kept |
| Transcribe.BlankSegment | x_transcribe.py:58-63 | a blank segment adds nothing to the text body but still gets its numbered cue with an empty text line |
| Handoff.AudioExtsAreMedia | x_transcribe.py:85 | every audio suffix is also a watcher suffix; the others are `.mp4`, `.mov` and `.mkv` |
| Handoff.AudioFilesAreTaken | watch_folder.py:65-68 | a regular file with an audio suffix is always taken by the watcher |
| Handoff.HandedOverPath | x_transcribe.py:85-90 | a file the watcher hands over is read directly when it is audio; otherwise it is a video and its audio is extracted to `<out>/<stem>.wav` |

## Left out

- The sleeps (`time.sleep(interval)`, `time.sleep(args.poll)`) and real time: a file's sizes are an oracle giving the result of each `stat` call.
- The transcriber subprocess call (`subprocess.run`) is a success/failure oracle per entry. The command line it builds is not modelled.
- ffmpeg extraction and the Whisper model are left out; the segments are an input to `Transcribe.WriteTranscript`.
- `Transcribe.AfterCleanup` and `Transcribe.CleanupKeepsInputAndOutputs` describe the clean-up only once it is reached. An error from the extraction (`subprocess.run(..., check=True)` at `x_transcribe.py:37`) or from the model (`x_transcribe.py:49-54`) is not caught, ends the script before line 102, and leaves the extracted WAV in the output directory even without `--keep-wav`; the watcher sees such a run as `succeeds == false`.
- `SrtTime.FmtSrt` takes whole seconds and milliseconds. The float path through `timedelta` and `(td.total_seconds() - total) * 1000` is floating point and is not modelled, and neither are negative timestamps.
- `PathNames.Lower` lower-cases ASCII letters only. Python's Unicode case mapping is not modelled.
- `Transcribe.IsSpace` uses the fixed set of code points for which `str.isspace` is true. The Unicode database behind it is not modelled.
- Argument parsing, `expanduser`, `mkdir`, `print`, opening files and their encoding are not modelled.
- `Handoff.HandedOverPath` assumes the watch entry is not a symbolic link: the transcriber resolves its input (`x_transcribe.py:77`), so a linked entry such as `clip.mp4` pointing at `talk.wav` is named, suffixed and stemmed after its target, whereas the lemma uses the entry's own name. `resolve()` is not modelled.
- Errors the source does not catch end the program and are not modelled: a `stat` failure other than `FileNotFoundError` in `file_stable` (`watch_folder.py:16-17`), a transcriber that cannot be started (`subprocess.run` raising `OSError`, which `except subprocess.CalledProcessError` at `watch_folder.py:81` does not catch), and a watch directory that has disappeared (`iterdir` at `watch_folder.py:64`). Each such error ends the `while True` loop; since every rename happens only after the call that could fail, the directories are left as the entries handled before it made them, a prefix of `WatchFolder.Run`.
- The endless `while True` loop is modelled one tick at a time; the scenario lemmas chain two or three ticks.
- Changes other processes make to the directories during a tick are not modelled. The listing is a fixed sequence of entries, and the lemmas that relate a tick to the directories before it require that it name each entry once, as `iterdir` does.
- `WatchFolder.FileStable`: the read count it returns is ghost, since the source only returns the boolean.
- `os.rename` replaces an existing destination of the same name, as on POSIX. The rename's outcome is an oracle; a platform that refuses to overwrite shows up as a rename failure.
- The outcome of `os.remove` is an oracle parameter of `Transcribe.AfterCleanup`.
