/** The transcriber's own logic around the speech model: naming its outputs
    after the input's stem, choosing between the input and an extracted WAV,
    writing the plain-text and SubRip bodies segment by segment, and the
    decision to delete the extracted WAV afterwards. */
module Transcribe {
  import opened PathNames
  import opened SrtTime

  /** Suffixes the transcriber feeds to the model without extracting audio. */
  const AudioExts: set<string> := {".wav", ".mp3", ".m4a", ".aac", ".flac"}

  /** `input_path.suffix.lower() in {...}` */
  predicate IsAudio(name: string)
  {
    Lower(Suffix(name)) in AudioExts
  }

  /** Where the transcriber reads and writes, decided before any work. */
  datatype Plan = Plan(
    txt: Path,         // `<out>/<stem>.txt`
    srt: Path,         // `<out>/<stem>.srt`
    audio: Path,       // what the model reads
    extract: bool,     // whether audio is first extracted into `audio`
    removeWav: bool)   // whether `audio` is deleted at the end

  function PlanFor(input: Path, outDir: Path, keepWav: bool): Plan
  {
    var stem := Stem(Name(input));
    var audio := IsAudio(Name(input));
    Plan(
      Join(outDir, stem + ".txt"),
      Join(outDir, stem + ".srt"),
      if audio then input else Join(outDir, stem + ".wav"),
      !audio,
      !audio && !keepWav)
  }

  /** Both outputs sit directly in the output directory, carry the input's
      stem, and differ only in their suffix. */
  lemma OutputNaming(input: Path, outDir: Path, keepWav: bool)
    requires Name(input) != ""
    ensures var p := PlanFor(input, outDir, keepWav);
      && p.txt[..|outDir|] == outDir && |p.txt| == |outDir| + 1
      && p.srt[..|outDir|] == outDir && |p.srt| == |outDir| + 1
      && Stem(Name(p.txt)) == Stem(Name(input)) && Suffix(Name(p.txt)) == ".txt"
      && Stem(Name(p.srt)) == Stem(Name(input)) && Suffix(Name(p.srt)) == ".srt"
      && p.txt != p.srt
  {
    var stem := Stem(Name(input));
    StemNonEmpty(Name(input));
    AppendedExtension(stem, ".txt");
    AppendedExtension(stem, ".srt");
  }

  /** An extracted WAV never has the input's own path: a name ending in
      `.wav` would have made the input audio. */
  lemma WavIsNotInput(input: Path, outDir: Path)
    requires !IsAudio(Name(input))
    ensures Join(outDir, Stem(Name(input)) + ".wav") != input
  {
    var stem := Stem(Name(input));
    assert Lower(".wav") == ".wav";
    if stem != "" {
      AppendedExtension(stem, ".wav");
    }
  }

  /** Audio inputs are read as they are; every other input is first
      extracted to `<out>/<stem>.wav`, and the model reads the input itself
      exactly when it is audio. */
  lemma AudioChoice(input: Path, outDir: Path, keepWav: bool)
    ensures var p := PlanFor(input, outDir, keepWav);
      && (p.audio == input <==> IsAudio(Name(input)))
      && (p.extract <==> !IsAudio(Name(input)))
      && (p.extract ==> p.audio == Join(outDir, Stem(Name(input)) + ".wav"))
  {
    if !IsAudio(Name(input)) {
      WavIsNotInput(input, outDir);
    }
  }

  /** The WAV is deleted only when it was extracted and `--keep-wav` was not
      given, and what is deleted is never the input nor a transcript. */
  lemma CleanupDecision(input: Path, outDir: Path, keepWav: bool)
    ensures var p := PlanFor(input, outDir, keepWav);
      && (p.removeWav <==> !IsAudio(Name(input)) && !keepWav)
      && (p.removeWav ==> p.audio != input && p.audio != p.txt && p.audio != p.srt)
  {
    var p := PlanFor(input, outDir, keepWav);
    if p.removeWav {
      WavIsNotInput(input, outDir);
      var stem := Stem(Name(input));
      assert Name(p.audio) == stem + ".wav" && Name(p.txt) == stem + ".txt";
      assert (stem + ".wav")[|stem| + 1] != (stem + ".txt")[|stem| + 1];
      assert (stem + ".wav")[|stem| + 1] != (stem + ".srt")[|stem| + 1];
    }
  }

  /** The files present after the clean-up step: the WAV goes when the plan
      says so and the removal succeeds; a failed removal is ignored. */
  function AfterCleanup(files: set<Path>, p: Plan, removeSucceeds: bool): (r: set<Path>)
    ensures r <= files && files - r <= {p.audio}
    ensures p.removeWav && removeSucceeds ==> p.audio !in r
    ensures !(p.removeWav && removeSucceeds) ==> r == files
  {
    if p.removeWav && removeSucceeds then files - {p.audio} else files
  }

  /** Clean-up never deletes the input or either transcript. */
  lemma CleanupKeepsInputAndOutputs(files: set<Path>, input: Path, outDir: Path, keepWav: bool, removeSucceeds: bool)
    ensures var p := PlanFor(input, outDir, keepWav);
      var r := AfterCleanup(files, p, removeSucceeds);
      && (input in files ==> input in r)
      && (p.txt in files ==> p.txt in r)
      && (p.srt in files ==> p.srt in r)
  {
    CleanupDecision(input, outDir, keepWav);
  }

  // ---------------------------------------------------------------------
  // `str.strip()`

  /** The code points `str.isspace` accepts, as inclusive ranges. */
  const SpaceRanges: seq<(int, int)> := [
    (0x09, 0x0d), (0x1c, 0x20), (0x85, 0x85), (0xa0, 0xa0), (0x1680, 0x1680),
    (0x2000, 0x200a), (0x2028, 0x2029), (0x202f, 0x202f), (0x205f, 0x205f),
    (0x3000, 0x3000)]

  predicate InRanges(k: int, ranges: seq<(int, int)>)
  {
    ranges != [] && ((ranges[0].0 <= k <= ranges[0].1) || InRanges(k, ranges[1..]))
  }

  /** `str.isspace` for one character. */
  predicate IsSpace(c: char)
  {
    InRanges(c as int, SpaceRanges)
  }

  predicate AllSpace(s: string)
  {
    forall i :: 0 <= i < |s| ==> IsSpace(s[i])
  }

  /** Drops leading whitespace. */
  function TrimStart(s: string): string
  {
    if s != "" && IsSpace(s[0]) then TrimStart(s[1..]) else s
  }

  /** Drops trailing whitespace. */
  function TrimEnd(s: string): string
  {
    if s != "" && IsSpace(s[|s| - 1]) then TrimEnd(s[..|s| - 1]) else s
  }

  /** `TrimStart` keeps a suffix of its input, what it drops is all
      whitespace, and what it keeps does not start with whitespace. */
  lemma {:induction false} TrimStartFacts(s: string)
    ensures |TrimStart(s)| <= |s| && TrimStart(s) == s[|s| - |TrimStart(s)|..]
    ensures AllSpace(s[..|s| - |TrimStart(s)|])
    ensures TrimStart(s) != "" ==> !IsSpace(TrimStart(s)[0])
  {
    if s != "" && IsSpace(s[0]) {
      TrimStartFacts(s[1..]);
      var r := TrimStart(s);
      assert s[..|s| - |r|] == [s[0]] + s[1..][..|s| - 1 - |r|];
    }
  }

  /** `TrimEnd` keeps a prefix of its input, what it drops is all
      whitespace, and what it keeps does not end in whitespace. */
  lemma {:induction false} TrimEndFacts(s: string)
    ensures |TrimEnd(s)| <= |s| && TrimEnd(s) == s[..|TrimEnd(s)|]
    ensures AllSpace(s[|TrimEnd(s)|..])
    ensures TrimEnd(s) != "" ==> !IsSpace(TrimEnd(s)[|TrimEnd(s)| - 1])
  {
    if s != "" && IsSpace(s[|s| - 1]) {
      var t := s[..|s| - 1];
      TrimEndFacts(t);
      var r := TrimEnd(s);
      assert s[|r|..] == t[|r|..] + [s[|s| - 1]];
    }
  }

  /** `str.strip()` with no argument. */
  function Strip(s: string): string
  {
    TrimEnd(TrimStart(s))
  }

  /** What `strip` keeps is a slice of the text with only whitespace cut
      from either side, and the slice neither starts nor ends in whitespace. */
  lemma StripIsTrimmedSlice(s: string)
    ensures exists i, j :: 0 <= i <= j <= |s| && Strip(s) == s[i..j]
              && AllSpace(s[..i]) && AllSpace(s[j..])
    ensures Strip(s) != "" ==> !IsSpace(Strip(s)[0]) && !IsSpace(Strip(s)[|Strip(s)| - 1])
  {
    var a := TrimStart(s);
    TrimStartFacts(s);
    TrimEndFacts(a);
    var i := |s| - |a|;
    var j := i + |TrimEnd(a)|;
    assert s[i..j] == a[..|TrimEnd(a)|];
    assert s[j..] == a[|TrimEnd(a)|..];
  }

  /** A text strips to nothing exactly when it is all whitespace. */
  lemma StripEmptyIffBlank(s: string)
    ensures Strip(s) == "" <==> AllSpace(s)
  {
    var a := TrimStart(s);
    TrimStartFacts(s);
    TrimEndFacts(a);
    if Strip(s) == "" {
      assert s == s[..|s| - |a|] + a;
    }
  }

  // ---------------------------------------------------------------------
  // The `.txt` and `.srt` bodies

  /** One recognised stretch of speech. */
  datatype Segment = Segment(start: Timestamp, end: Timestamp, text: string)

  /** A segment's text as both files carry it: stripped. */
  function SegmentText(seg: Segment): string
  {
    Strip(seg.text)
  }

  /** A stripped text on a line of its own, or nothing when it is empty. */
  function Line(t: string): string
  {
    if t != "" then t + "\n" else ""
  }

  /** A SubRip cue: its number, the time range, the text, a blank line. */
  function CueText(i: nat, start: Timestamp, end: Timestamp, text: string): string
  {
    Digits(i) + "\n" + FmtSrt(start) + " --> " + FmtSrt(end) + "\n" + text + "\n\n"
  }

  /** The cue written for the `i`-th segment. */
  function Cue(i: nat, seg: Segment): string
  {
    CueText(i, seg.start, seg.end, Strip(seg.text))
  }

  /** What `for x in xs[:n]: out += Line(text(x))` writes. */
  function Joined<T>(xs: seq<T>, n: nat, text: T -> string): string
    requires n <= |xs|
  {
    if n == 0 then "" else Joined(xs, n - 1, text) + Line(text(xs[n - 1]))
  }

  /** The `.txt` body once the first `n` segments are written. */
  function TxtOf(segs: seq<Segment>, n: nat): string
    requires n <= |segs|
  {
    Joined(segs, n, SegmentText)
  }

  /** What `for i, x in enumerate(xs[:n], start=1): out += f(i, x)` writes. */
  function Numbered<T>(xs: seq<T>, n: nat, f: (nat, T) -> string): string
    requires n <= |xs|
  {
    if n == 0 then "" else Numbered(xs, n - 1, f) + f(n, xs[n - 1])
  }

  /** The `.srt` body once the first `n` segments are written, cues
      numbered from 1. */
  function SrtOf(segs: seq<Segment>, n: nat): string
    requires n <= |segs|
  {
    Numbered(segs, n, Cue)
  }

  /** The loop of `transcribe`: both files are written in one pass over the
      segments, the text file only for segments with something left after
      stripping, the subtitle file for every segment. */
  method WriteTranscript(segments: seq<Segment>) returns (txt: string, srt: string)
    ensures txt == TxtOf(segments, |segments|)
    ensures srt == SrtOf(segments, |segments|)
  {
    txt, srt := "", "";
    for i := 0 to |segments|
      invariant txt == TxtOf(segments, i)
      invariant srt == SrtOf(segments, i)
    {
      var segment := segments[i];
      var text := Strip(segment.text);
      if text != "" {
        txt := txt + (text + "\n");
      }
      srt := srt + Cue(i + 1, segment);
    }
  }

  /** Concatenation of a sequence of strings. */
  function Concat(parts: seq<string>): string
  {
    if parts == [] then "" else Concat(parts[..|parts| - 1]) + parts[|parts| - 1]
  }

  /** The texts of the first `n` items that are not empty, in order. */
  function Kept<T>(xs: seq<T>, n: nat, text: T -> string): seq<string>
    requires n <= |xs|
  {
    if n == 0 then []
    else
      var t := text(xs[n - 1]);
      Kept(xs, n - 1, text) + (if t != "" then [t] else [])
  }

  /** The pieces `f(1, xs[0])`, ..., `f(n, xs[n - 1])`. */
  function NumberedList<T>(xs: seq<T>, n: nat, f: (nat, T) -> string): (r: seq<string>)
    requires n <= |xs|
    ensures |r| == n && forall i :: 0 <= i < n ==> r[i] == f(i + 1, xs[i])
  {
    seq(n, i requires 0 <= i < n => f(i + 1, xs[i]))
  }

  /** A numbered loop writes exactly its numbered pieces, in order. */
  lemma {:induction false} NumberedIsConcat<T>(xs: seq<T>, n: nat, f: (nat, T) -> string)
    requires n <= |xs|
    ensures Numbered(xs, n, f) == Concat(NumberedList(xs, n, f))
  {
    if n > 0 {
      NumberedIsConcat(xs, n - 1, f);
      var all, before := NumberedList(xs, n, f), NumberedList(xs, n - 1, f);
      assert all == before + [f(n, xs[n - 1])];
      ConcatSnoc(before, f(n, xs[n - 1]));
    }
  }

  /** The subtitle body is exactly one cue per segment, the `i`-th segment's
      cue numbered `i + 1`, in segment order, blank segments included. */
  lemma SrtIsNumberedCues(segs: seq<Segment>, n: nat)
    requires n <= |segs|
    ensures var cues := NumberedList(segs, n, Cue);
      && SrtOf(segs, n) == Concat(cues)
      && |cues| == n
      && forall i :: 0 <= i < n ==> cues[i] == Cue(i + 1, segs[i])
  {
    NumberedIsConcat(segs, n, Cue);
  }

  lemma ConcatSnoc(parts: seq<string>, x: string)
    ensures Concat(parts + [x]) == Concat(parts) + x
  {
    assert (parts + [x])[..|parts|] == parts;
  }

  /** The texts, each followed by a newline. */
  function Unlines(ts: seq<string>): string
  {
    if ts == [] then "" else Unlines(ts[..|ts| - 1]) + ts[|ts| - 1] + "\n"
  }

  /** Writing each item's text on its own line, skipping empty texts, is
      writing the non-empty texts one per line. */
  lemma {:induction false} JoinedIsKeptLines<T>(xs: seq<T>, n: nat, text: T -> string)
    requires n <= |xs|
    ensures Joined(xs, n, text) == Unlines(Kept(xs, n, text))
  {
    if n > 0 {
      JoinedIsKeptLines(xs, n - 1, text);
      var t := text(xs[n - 1]);
      LineStep(Joined(xs, n - 1, text), Joined(xs, n, text), Kept(xs, n - 1, text), Kept(xs, n, text), t);
    }
  }

  /** One more item: its line appended to the lines of the texts kept so far
      is the lines of the kept texts with its own text added when non-empty. */
  lemma LineStep(before: string, after: string, kept: seq<string>, kept': seq<string>, t: string)
    requires before == Unlines(kept)
    requires after == before + Line(t)
    requires kept' == kept + (if t != "" then [t] else [])
    ensures after == Unlines(kept')
  {
    if t != "" {
      assert kept'[..|kept|] == kept;
    } else {
      assert kept' == kept;
    }
  }

  /** The text body is exactly the stripped segment texts that are not
      empty, in order, each followed by a newline. */
  lemma TxtIsKeptLines(segs: seq<Segment>, n: nat)
    requires n <= |segs|
    ensures TxtOf(segs, n) == Unlines(Kept(segs, n, SegmentText))
  {
    JoinedIsKeptLines(segs, n, SegmentText);
  }

  /** The kept texts are all non-empty texts of the items, and every item
      whose text is non-empty contributes it. */
  lemma {:induction false} KeptExactly<T>(xs: seq<T>, n: nat, text: T -> string)
    requires n <= |xs|
    ensures |Kept(xs, n, text)| <= n
    ensures forall t :: t in Kept(xs, n, text) ==> t != "" && exists i :: 0 <= i < n && t == text(xs[i])
    ensures forall i :: 0 <= i < n && text(xs[i]) != "" ==> text(xs[i]) in Kept(xs, n, text)
  {
    if n > 0 {
      KeptExactly(xs, n - 1, text);
    }
  }

  /** A segment whose text is all whitespace adds nothing to the text body
      but still gets its cue, with an empty text line. */
  lemma BlankSegment(segs: seq<Segment>, n: nat)
    requires 0 < n <= |segs| && AllSpace(segs[n - 1].text)
    ensures TxtOf(segs, n) == TxtOf(segs, n - 1)
    ensures SrtOf(segs, n) == SrtOf(segs, n - 1) + CueText(n, segs[n - 1].start, segs[n - 1].end, "")
  {
    StripEmptyIffBlank(segs[n - 1].text);
  }
}
