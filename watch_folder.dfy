/** The watch-folder ingest loop: which directory entries are media files,
    when a file counts as settled, and what one poll tick does to the watch
    and processed directories. The clock, the sleeps, the transcriber
    process and the operating system's rename are replaced by oracles. */
module WatchFolder {
  import opened PathNames

  /** `VIDEO_EXTS`: the lower-cased suffixes of the files the watcher takes. */
  const VideoExts: set<string> := {".mp4", ".mov", ".mkv", ".m4a", ".mp3", ".wav", ".aac", ".flac"}

  /** The number of size reads `file_stable` makes when the poll loop calls it. */
  const StableChecks: int := 3

  /** A directory entry: a regular file and its size, or anything else
      (a directory, a link whose target is gone). */
  datatype Entry = File(size: nat) | Other

  /** What one `stat` of a file gives: its size, or that it no longer exists. */
  datatype Sample = Size(bytes: nat) | Missing

  /** The results of the successive `stat` calls on one file, as the writers
      outside the process make them come out. */
  type Reads = nat -> Sample

  /** The answer of `file_stable` and how many reads it made to get there. */
  datatype Verdict = Verdict(stable: bool, made: nat)

  // ---------------------------------------------------------------------
  // Eligibility

  /** `item.is_file()` and `item.suffix.lower() in VIDEO_EXTS`. */
  predicate Eligible(watch: map<string, Entry>, name: string)
  {
    name in watch && watch[name].File? && Lower(Suffix(name)) in VideoExts
  }

  /** Every allowed suffix is an extension as `Suffix` can produce it. */
  lemma VideoExtsAreExtensions()
    ensures forall e :: e in VideoExts ==> IsExtension(e)
  {
    assert Lower(".mp4") == ".mp4" && Lower(".mov") == ".mov" && Lower(".mkv") == ".mkv";
    assert Lower(".m4a") == ".m4a" && Lower(".mp3") == ".mp3" && Lower(".wav") == ".wav";
    assert Lower(".aac") == ".aac" && Lower(".flac") == ".flac";
  }

  /** A regular file is taken exactly when its name ends, in any letter
      case, in one of the media extensions with something before it. */
  lemma EligibleIffMediaName(watch: map<string, Entry>, name: string)
    ensures Eligible(watch, name) <==>
      && name in watch && watch[name].File?
      && exists e :: e in VideoExts && |name| > |e| && Lower(name[|name| - |e|..]) == e
  {
    VideoExtsAreExtensions();
    if Lower(Suffix(name)) in VideoExts {
      LowerSuffixIs(name, Lower(Suffix(name)));
    }
    forall e | e in VideoExts && |name| > |e| && Lower(name[|name| - |e|..]) == e
      ensures Lower(Suffix(name)) in VideoExts
    {
      LowerSuffixIs(name, e);
    }
  }

  /** `clip.MP4` is taken whatever the case of its suffix; `notes.txt`, a
      dot-file such as `.mp4`, and a directory are never taken. */
  lemma EligibilityExamples(watch: map<string, Entry>)
    ensures "clip.MP4" in watch && watch["clip.MP4"].File? ==> Eligible(watch, "clip.MP4")
    ensures !Eligible(watch, "notes.txt")
    ensures !Eligible(watch, ".mp4")
    ensures forall name :: name in watch && watch[name].Other? ==> !Eligible(watch, name)
  {
    ExampleSuffixes();
    DotFileSuffix();
  }

  /** The suffixes of the two named examples, lower-cased. */
  lemma ExampleSuffixes()
    ensures Lower(Suffix("clip.MP4")) == ".mp4"
    ensures Lower(Suffix("notes.txt")) == ".txt"
  {
    assert "clip.MP4" == "clip" + ".MP4";
    AppendedExtension("clip", ".MP4");
    assert Lower(".MP4") == ".mp4";
    assert "notes.txt" == "notes" + ".txt";
    AppendedExtension("notes", ".txt");
    assert Lower(".txt") == ".txt";
  }

  lemma DotFileSuffix()
    ensures Lower(Suffix(".mp4")) == ""
  {
    var name := ".mp4";
    assert name[0] == '.' && name[1] != '.' && name[2] != '.' && name[3] != '.';
    assert LastDot(name) == 0;
    assert Lower("") == "";
  }

  // ---------------------------------------------------------------------
  // Stability

  /** `file_stable` from its `k`-th read on, with `prev` the size read last
      (`-1` before the first read). */
  function SampleFrom(stats: Reads, checks: int, k: nat, prev: int): Verdict
    decreases checks - k
  {
    if checks <= k then Verdict(false, k)
    else match stats(k)
      case Missing => Verdict(false, k + 1)
      case Size(n) => if n == prev then Verdict(true, k + 1) else SampleFrom(stats, checks, k + 1, n)
  }

  /** What `file_stable(path, checks)` answers, and after how many reads. */
  function Sampling(stats: Reads, checks: int): Verdict
  {
    SampleFrom(stats, checks, 0, -1)
  }

  /** `file_stable`: up to `checks` reads of the size; gone means not
      stable, a size equal to the one before means stable, and running out
      of reads means not stable. */
  method FileStable(stats: Reads, checks: int) returns (stable: bool, ghost count: nat)
    ensures stable == Sampling(stats, checks).stable
    ensures count == Sampling(stats, checks).made
  {
    var prev: int := -1;
    var k := 0;
    while k < checks
      invariant SampleFrom(stats, checks, k, prev) == Sampling(stats, checks)
      decreases checks - k
    {
      var sample := stats(k);
      if sample.Missing? {
        return false, k + 1;
      }
      if sample.bytes == prev {
        return true, k + 1;
      }
      prev := sample.bytes;
      k := k + 1;
    }
    return false, k;
  }

  /** Read `k` ends the sampling: the file is gone, or its size is the one
      read just before. */
  predicate Ends(stats: Reads, k: nat)
  {
    stats(k).Missing? || (k > 0 && stats(k) == stats(k - 1))
  }

  /** The budget of reads: `checks` when positive, else none. */
  function Budget(checks: int): nat
  {
    if checks <= 0 then 0 else checks
  }

  lemma {:induction false} SampleFromOutcome(stats: Reads, checks: int, k: nat, prev: int)
    requires k <= Budget(checks)
    requires (k == 0 && prev == -1) || (k > 0 && prev >= 0 && stats(k - 1) == Size(prev as nat) && !Ends(stats, k - 1))
    ensures var v := SampleFrom(stats, checks, k, prev);
      && k <= v.made <= Budget(checks)
      && (k < Budget(checks) ==> k < v.made)
      && (forall j :: k <= j < v.made - 1 ==> !Ends(stats, j))
      && (v.made == Budget(checks) || Ends(stats, v.made - 1))
      && (v.stable <==> v.made > 0 && Ends(stats, v.made - 1) && stats(v.made - 1).Size?)
      && (k < v.made ==> v.stable || v.made == Budget(checks) || stats(v.made - 1).Missing?)
    decreases checks - k
  {
    if k < checks {
      match stats(k)
      case Missing =>
      case Size(n) =>
        if n != prev {
          SampleFromOutcome(stats, checks, k + 1, n);
        }
    }
  }

  /** The reads stop at the first read that ends the sampling, or when the
      budget of `checks` reads is spent; the file is stable exactly when the
      last read repeated the size before it. */
  lemma SamplingOutcome(stats: Reads, checks: int)
    ensures var v := Sampling(stats, checks);
      && v.made <= Budget(checks)
      && (checks > 0 ==> v.made > 0)
      && (forall j :: 0 <= j < v.made - 1 ==> !Ends(stats, j))
      && (v.made == Budget(checks) || Ends(stats, v.made - 1))
      && (v.stable <==> v.made > 0 && Ends(stats, v.made - 1) && stats(v.made - 1).Size?)
  {
    SampleFromOutcome(stats, checks, 0, -1);
  }

  /** Read `m` is present and repeats the size of read `m - 1`, and every
      read before it found the file. */
  predicate SettledAt(stats: Reads, m: nat)
  {
    && m > 0 && stats(m).Size? && stats(m) == stats(m - 1)
    && forall j :: 0 <= j < m ==> stats(j).Size?
  }

  /** Stable exactly when two consecutive reads within the budget agree and
      no read before them found the file gone. */
  lemma StableIffSettled(stats: Reads, checks: int)
    ensures Sampling(stats, checks).stable <==> exists m: nat :: m < checks && SettledAt(stats, m)
  {
    var v := Sampling(stats, checks);
    SamplingOutcome(stats, checks);
    if v.stable {
      var m := v.made - 1;
      forall j | 0 <= j < m
        ensures stats(j).Size?
      {
        assert !Ends(stats, j);
      }
      assert SettledAt(stats, m);
    }
    if exists m: nat :: m < checks && SettledAt(stats, m) {
      var m: nat :| m < checks && SettledAt(stats, m);
      var e := v.made - 1;
      assert Ends(stats, m);
      if e < m {
        assert stats(e).Size?;
      }
    }
  }

  /** With at most one read no two reads can agree. */
  lemma AtMostOneCheck(stats: Reads, checks: int)
    requires checks <= 1
    ensures !Sampling(stats, checks).stable
  {
    StableIffSettled(stats, checks);
  }

  /** A missing file stops the sampling at once, with the answer "not
      stable" and no error. */
  lemma MissingStops(stats: Reads, checks: int, k: nat)
    requires k < Sampling(stats, checks).made && stats(k).Missing?
    ensures Sampling(stats, checks).made == k + 1
    ensures !Sampling(stats, checks).stable
  {
    SamplingOutcome(stats, checks);
    assert Ends(stats, k);
  }

  /** A file whose size differs on every read is not stable, after exactly
      `checks` reads. */
  lemma GrowingFile(stats: Reads, checks: int)
    requires forall k :: 0 <= k < checks ==> stats(k).Size?
    requires forall k :: 0 < k < checks ==> stats(k) != stats(k - 1)
    ensures Sampling(stats, checks) == Verdict(false, Budget(checks))
  {
    SamplingOutcome(stats, checks);
  }

  /** A file present and unchanged over its first two reads is stable after
      those two reads, whenever the budget allows two. */
  lemma SettledFile(stats: Reads, checks: int)
    requires checks >= 2 && stats(0).Size? && stats(1) == stats(0)
    ensures Sampling(stats, checks) == Verdict(true, 2)
  {
    SamplingOutcome(stats, checks);
    assert Ends(stats, 1) && !Ends(stats, 0);
  }

  // ---------------------------------------------------------------------
  // One poll tick

  /** What the outside world does to one listed entry during a tick: the
      sizes its `stat` calls return, whether the transcriber run exits with
      success, and whether the rename into the processed directory works. */
  datatype Probe = Probe(name: string, stats: Reads, succeeds: bool, renames: bool)

  /** The watch and processed directories, by entry name. */
  datatype Dirs = Dirs(watch: map<string, Entry>, processed: map<string, Entry>)

  /** The entry passes the filters and is handed to the transcriber. */
  predicate Dispatches(watch: map<string, Entry>, p: Probe)
  {
    Eligible(watch, p.name) && Sampling(p.stats, StableChecks).stable
  }

  /** The entry is handed over, processed, and renamed away. */
  predicate Moves(watch: map<string, Entry>, p: Probe)
  {
    Dispatches(watch, p) && p.succeeds && p.renames
  }

  /** One iteration of the `for item in watch_dir.iterdir()` loop. */
  function Step(d: Dirs, p: Probe): Dirs
  {
    if Moves(d.watch, p) then Dirs(d.watch - {p.name}, d.processed[p.name := d.watch[p.name]])
    else d
  }

  /** The directories after the first `n` listed entries are handled. */
  function Run(d: Dirs, listing: seq<Probe>, n: nat): Dirs
    requires n <= |listing|
  {
    if n == 0 then d else Step(Run(d, listing, n - 1), listing[n - 1])
  }

  /** The entries handed to the transcriber among the first `n`, in order. */
  function Dispatched(d: Dirs, listing: seq<Probe>, n: nat): seq<string>
    requires n <= |listing|
  {
    if n == 0 then []
    else
      Dispatched(d, listing, n - 1)
      + (if Dispatches(Run(d, listing, n - 1).watch, listing[n - 1]) then [listing[n - 1].name] else [])
  }

  /** The two directories as the watcher sees them. */
  class Folders {
    var watch: map<string, Entry>
    var processed: map<string, Entry>

    constructor (watch: map<string, Entry>, processed: map<string, Entry>)
      ensures this.watch == watch && this.processed == processed
    {
      this.watch := watch;
      this.processed := processed;
    }

    function State(): Dirs
      reads this
    {
      Dirs(watch, processed)
    }

    /** The body of the `while True` loop, without its sleep: every listed
        entry is filtered, sampled, handed to the transcriber, and on success
        renamed into the processed directory under the same name. Returns the
        entries handed to the transcriber, in order. */
    method Tick(listing: seq<Probe>) returns (dispatched: seq<string>)
      modifies this
      ensures State() == Run(old(State()), listing, |listing|)
      ensures dispatched == Dispatched(old(State()), listing, |listing|)
    {
      ghost var start := State();
      dispatched := [];
      for i := 0 to |listing|
        invariant State() == Run(start, listing, i)
        invariant dispatched == Dispatched(start, listing, i)
      {
        var item := listing[i];
        if !(item.name in watch && watch[item.name].File?) {
          continue;
        }
        if Lower(Suffix(item.name)) !in VideoExts {
          continue;
        }
        var stable;
        ghost var count;
        stable, count := FileStable(item.stats, StableChecks);
        if !stable {
          continue;
        }
        dispatched := dispatched + [item.name];
        if !item.succeeds {
          continue;
        }
        if item.renames {
          processed := processed[item.name := watch[item.name]];
          watch := watch - {item.name};
        }
      }
    }
  }

  // ---------------------------------------------------------------------
  // What a tick does, stated on the directories before it

  /** A directory listing names each entry once. */
  predicate Distinct(listing: seq<Probe>)
  {
    forall i, j :: 0 <= i < j < |listing| ==> listing[i].name != listing[j].name
  }

  /** The names the first `n` listed entries move, judged on the watch
      directory before the tick. */
  function Moved(watch: map<string, Entry>, listing: seq<Probe>, n: nat): set<string>
    requires n <= |listing|
  {
    if n == 0 then {}
    else Moved(watch, listing, n - 1) + (if Moves(watch, listing[n - 1]) then {listing[n - 1].name} else {})
  }

  /** The names among the first `n` that pass the filters, judged on the
      watch directory before the tick, in listing order. */
  function Candidates(watch: map<string, Entry>, listing: seq<Probe>, n: nat): seq<string>
    requires n <= |listing|
  {
    if n == 0 then []
    else Candidates(watch, listing, n - 1) + (if Dispatches(watch, listing[n - 1]) then [listing[n - 1].name] else [])
  }

  lemma {:induction false} MovedFromListing(watch: map<string, Entry>, listing: seq<Probe>, n: nat)
    requires n <= |listing|
    ensures MovedFrom(watch, listing, n, Moved(watch, listing, n))
  {
    if n > 0 {
      MovedFromListing(watch, listing, n - 1);
      MovedStep(watch, listing, n, Moved(watch, listing, n - 1), Moved(watch, listing, n));
    }
  }

  /** `moved` holds exactly the names of the first `n` listed entries that
      move, each of them a watch entry. */
  predicate MovedFrom(watch: map<string, Entry>, listing: seq<Probe>, n: nat, moved: set<string>)
    requires n <= |listing|
  {
    && (forall x :: x in moved ==>
          x in watch && exists i :: 0 <= i < n && listing[i].name == x && Moves(watch, listing[i]))
    && (forall i :: 0 <= i < n && Moves(watch, listing[i]) ==> listing[i].name in moved)
  }

  lemma MovedStep(watch: map<string, Entry>, listing: seq<Probe>, n: nat, moved: set<string>, moved': set<string>)
    requires 0 < n <= |listing| && MovedFrom(watch, listing, n - 1, moved)
    requires moved' == moved + (if Moves(watch, listing[n - 1]) then {listing[n - 1].name} else {})
    ensures MovedFrom(watch, listing, n, moved')
  {
  }

  /** A tick never adds to the watch directory nor changes what stays there,
      and never takes anything out of the processed directory. */
  lemma {:induction false} RunShrinksWatch(d: Dirs, listing: seq<Probe>, n: nat)
    requires n <= |listing|
    ensures var r := Run(d, listing, n);
      && r.watch.Keys <= d.watch.Keys
      && (forall x :: x in r.watch ==> r.watch[x] == d.watch[x])
      && d.processed.Keys <= r.processed.Keys
  {
    if n > 0 {
      RunShrinksWatch(d, listing, n - 1);
    }
  }

  /** After a tick, the watch directory is the one before minus exactly the
      files that were eligible, stable, processed and renamed; those files are
      in the processed directory under the same name, and nothing else in
      either directory changed. */
  lemma {:induction false} RunMovesExactly(d: Dirs, listing: seq<Probe>, n: nat)
    requires n <= |listing| && Distinct(listing)
    ensures var r := Run(d, listing, n);
      var moved := Moved(d.watch, listing, n);
      && moved <= d.watch.Keys
      && r.watch == d.watch - moved
      && r.processed.Keys == d.processed.Keys + moved
      && (forall x :: x in moved ==> r.processed[x] == d.watch[x])
      && (forall x :: x in d.processed && x !in moved ==> r.processed[x] == d.processed[x])
  {
    if n > 0 {
      RunMovesExactly(d, listing, n - 1);
      NextNotMovedYet(d.watch, listing, n - 1);
      StepMovesExactly(d, Run(d, listing, n - 1), listing[n - 1], Moved(d.watch, listing, n - 1));
    }
  }

  /** The next listed name is not among those already moved. */
  lemma NextNotMovedYet(watch: map<string, Entry>, listing: seq<Probe>, n: nat)
    requires n < |listing| && Distinct(listing)
    ensures listing[n].name !in Moved(watch, listing, n)
  {
    MovedFromListing(watch, listing, n);
  }

  /** An entry not yet moved gets the same verdicts from the current watch
      directory as from the one before the tick. */
  lemma SameVerdicts(watch: map<string, Entry>, current: map<string, Entry>, moved: set<string>, p: Probe)
    requires current == watch - moved && p.name !in moved
    ensures Dispatches(current, p) == Dispatches(watch, p)
    ensures Moves(current, p) == Moves(watch, p)
  {
  }

  /** One listed entry keeps the relation between the directories before the
      tick, the current ones, and the names moved so far. */
  lemma StepMovesExactly(d: Dirs, r: Dirs, p: Probe, moved: set<string>)
    requires p.name !in moved && moved <= d.watch.Keys
    requires r.watch == d.watch - moved
    requires r.processed.Keys == d.processed.Keys + moved
    requires forall x :: x in moved ==> r.processed[x] == d.watch[x]
    requires forall x :: x in d.processed && x !in moved ==> r.processed[x] == d.processed[x]
    ensures var r' := Step(r, p);
      var moved' := moved + (if Moves(d.watch, p) then {p.name} else {});
      && moved' <= d.watch.Keys
      && r'.watch == d.watch - moved'
      && r'.processed.Keys == d.processed.Keys + moved'
      && (forall x :: x in moved' ==> r'.processed[x] == d.watch[x])
      && (forall x :: x in d.processed && x !in moved' ==> r'.processed[x] == d.processed[x])
  {
    SameVerdicts(d.watch, r.watch, moved, p);
    if Moves(d.watch, p) {
      assert r.watch - {p.name} == d.watch - (moved + {p.name});
    }
  }

  /** No file of the watch directory is lost: each is, after the tick,
      still there unchanged or in the processed directory unchanged, and the
      names in the two directories together are the same as before. A file
      of the processed directory may be replaced by a moved file of the same
      name (see `SameNameReplaced`). */
  lemma NoFileLost(d: Dirs, listing: seq<Probe>)
    requires Distinct(listing)
    ensures var r := Run(d, listing, |listing|);
      && (forall x :: x in d.watch ==>
            (x in r.watch && r.watch[x] == d.watch[x]) || (x in r.processed && r.processed[x] == d.watch[x]))
      && r.watch.Keys + r.processed.Keys == d.watch.Keys + d.processed.Keys
  {
    RunMovesExactly(d, listing, |listing|);
  }

  /** The entries handed to the transcriber are, in listing order, exactly
      those that were eligible regular media files and judged stable. */
  lemma {:induction false} DispatchedExactly(d: Dirs, listing: seq<Probe>, n: nat)
    requires n <= |listing| && Distinct(listing)
    ensures Dispatched(d, listing, n) == Candidates(d.watch, listing, n)
  {
    if n > 0 {
      DispatchedExactly(d, listing, n - 1);
      RunMovesExactly(d, listing, n - 1);
      NextNotMovedYet(d.watch, listing, n - 1);
      DispatchStep(Dispatched(d, listing, n - 1), Dispatched(d, listing, n),
        Candidates(d.watch, listing, n - 1), Candidates(d.watch, listing, n),
        d.watch, Run(d, listing, n - 1).watch, Moved(d.watch, listing, n - 1), listing[n - 1]);
    }
  }

  /** One listed entry extends the handed-over names and the candidates alike. */
  lemma DispatchStep(sent: seq<string>, sent': seq<string>, cands: seq<string>, cands': seq<string>,
                     watch: map<string, Entry>, current: map<string, Entry>, moved: set<string>, p: Probe)
    requires sent == cands
    requires current == watch - moved && p.name !in moved
    requires sent' == sent + (if Dispatches(current, p) then [p.name] else [])
    requires cands' == cands + (if Dispatches(watch, p) then [p.name] else [])
    ensures sent' == cands'
  {
    SameVerdicts(watch, current, moved, p);
  }

  /** Whatever the listing, only regular files with a media suffix that
      the sampling judged stable are ever handed to the transcriber. */
  lemma {:induction false} DispatchedOnlyEligible(d: Dirs, listing: seq<Probe>, n: nat)
    requires n <= |listing|
    ensures Vetted(d.watch, listing, n, Dispatched(d, listing, n))
  {
    if n > 0 {
      DispatchedOnlyEligible(d, listing, n - 1);
      RunShrinksWatch(d, listing, n - 1);
      VettedStep(d.watch, Run(d, listing, n - 1).watch, listing, n,
        Dispatched(d, listing, n - 1), Dispatched(d, listing, n));
    }
  }

  /** Names handed over among the first `n` entries: each an eligible file
      of `watch` whose listed entry was judged stable. */
  predicate Vetted(watch: map<string, Entry>, listing: seq<Probe>, n: nat, sent: seq<string>)
    requires n <= |listing|
  {
    forall x :: x in sent ==>
      Eligible(watch, x) && exists i :: 0 <= i < n && listing[i].name == x && Sampling(listing[i].stats, StableChecks).stable
  }

  /** Judging one more entry on a watch directory that only lost entries
      keeps every handed-over name vetted. */
  lemma VettedStep(watch: map<string, Entry>, current: map<string, Entry>, listing: seq<Probe>, n: nat,
                   sent: seq<string>, sent': seq<string>)
    requires 0 < n <= |listing|
    requires Vetted(watch, listing, n - 1, sent)
    requires current.Keys <= watch.Keys && forall x :: x in current ==> current[x] == watch[x]
    requires sent' == sent + (if Dispatches(current, listing[n - 1]) then [listing[n - 1].name] else [])
    ensures Vetted(watch, listing, n, sent')
  {
  }

  /** An entry that is not moved stays in the watch directory unchanged: in
      particular when the transcriber fails (the entry is retried next
      tick) and when the rename fails (the error is swallowed). */
  lemma StaysUnlessMoved(d: Dirs, listing: seq<Probe>, i: nat)
    requires i < |listing| && Distinct(listing)
    requires listing[i].name in d.watch && !Moves(d.watch, listing[i])
    ensures var r := Run(d, listing, |listing|);
      listing[i].name in r.watch && r.watch[listing[i].name] == d.watch[listing[i].name]
  {
    RunMovesExactly(d, listing, |listing|);
    MovedFromListing(d.watch, listing, |listing|);
  }

  /** A failed transcriber run leaves the file where it was, and the file
      was still handed over. */
  lemma FailureLeavesInPlace(d: Dirs, listing: seq<Probe>, i: nat)
    requires i < |listing| && Distinct(listing)
    requires Dispatches(d.watch, listing[i]) && !listing[i].succeeds
    ensures var r := Run(d, listing, |listing|);
      listing[i].name in r.watch && r.watch[listing[i].name] == d.watch[listing[i].name]
    ensures listing[i].name in Dispatched(d, listing, |listing|)
  {
    StaysUnlessMoved(d, listing, i);
    DispatchedExactly(d, listing, |listing|);
    CandidatesContain(d.watch, listing, |listing|, i);
  }

  /** A processed file whose rename fails stays in the watch directory,
      pending another dispatch. */
  lemma RenameErrorLeavesInPlace(d: Dirs, listing: seq<Probe>, i: nat)
    requires i < |listing| && Distinct(listing)
    requires Dispatches(d.watch, listing[i]) && listing[i].succeeds && !listing[i].renames
    ensures var r := Run(d, listing, |listing|);
      listing[i].name in r.watch && r.watch[listing[i].name] == d.watch[listing[i].name]
      && listing[i].name !in Moved(d.watch, listing, |listing|)
  {
    StaysUnlessMoved(d, listing, i);
    RunMovesExactly(d, listing, |listing|);
  }

  lemma {:induction false} CandidatesContain(watch: map<string, Entry>, listing: seq<Probe>, n: nat, i: nat)
    requires i < n <= |listing| && Dispatches(watch, listing[i])
    ensures listing[i].name in Candidates(watch, listing, n)
  {
    var before := Candidates(watch, listing, n - 1);
    var p := listing[n - 1];
    assert Candidates(watch, listing, n) == before + (if Dispatches(watch, p) then [p.name] else []);
    if i < n - 1 {
      CandidatesContain(watch, listing, n - 1, i);
    }
  }

  /** Relocation is terminal: a file moved in one tick is in the processed
      directory and absent from the watch directory after any later tick,
      and is never handed to the transcriber again. */
  lemma MovedIsPermanent(d: Dirs, first: seq<Probe>, second: seq<Probe>, x: string)
    requires Distinct(first) && x in Moved(d.watch, first, |first|)
    ensures var d1 := Run(d, first, |first|);
      var d2 := Run(d1, second, |second|);
      && x !in d1.watch && x !in d2.watch
      && x in d1.processed && x in d2.processed
      && x !in Dispatched(d1, second, |second|)
  {
    var d1 := Run(d, first, |first|);
    RunMovesExactly(d, first, |first|);
    RunShrinksWatch(d1, second, |second|);
    DispatchedOnlyEligible(d1, second, |second|);
  }

  // ---------------------------------------------------------------------
  // Scenarios

  /** Reads of a file that no longer changes size. */
  function Static(size: nat): Reads
  {
    k => Size(size)
  }

  /** Reads of a file that grows by `step` bytes between reads. */
  function Growing(size: nat, step: nat): Reads
    requires step > 0
  {
    (k: nat) => Size(size + k * step)
  }

  lemma StaticIsStable(size: nat)
    ensures Sampling(Static(size), StableChecks) == Verdict(true, 2)
  {
    SettledFile(Static(size), StableChecks);
  }

  lemma GrowingIsUnstable(size: nat, step: nat)
    requires step > 0
    ensures Sampling(Growing(size, step), StableChecks) == Verdict(false, 3)
  {
    GrowingFile(Growing(size, step), StableChecks);
  }

  /** `a.mp4` (static, 500000 bytes) and `b.mp3` (growing by 3000 bytes per
      read interval): the first tick hands `a.mp4` over and moves it, and
      leaves `b.mp3`; the second tick sees only `b.mp3` and judges it again
      from scratch. */
  lemma TwoFileScenario()
    ensures var d := Dirs(map["a.mp4" := File(500000), "b.mp3" := File(20000)], map[]);
      var a := Probe("a.mp4", Static(500000), true, true);
      var b := Probe("b.mp3", Growing(20000, 3000), true, true);
      var d1 := Run(d, [a, b], 2);
      && Dispatched(d, [a, b], 2) == ["a.mp4"]
      && d1 == Dirs(map["b.mp3" := File(20000)], map["a.mp4" := File(500000)])
      && Dispatched(d1, [b], 1) == []
      && Run(d1, [b], 1) == d1
  {
    var d := Dirs(map["a.mp4" := File(500000), "b.mp3" := File(20000)], map[]);
    var d1 := Dirs(map["b.mp3" := File(20000)], map["a.mp4" := File(500000)]);
    var a := Probe("a.mp4", Static(500000), true, true);
    var b := Probe("b.mp3", Growing(20000, 3000), true, true);
    ScenarioFirstFile();
    ScenarioGrowingFile(d);
    ScenarioGrowingFile(d1);
    assert Run(d, [a, b], 1) == d1;
    assert Dispatched(d, [a, b], 1) == ["a.mp4"];
  }

  /** The scenario's first entry: `a.mp4` is handed over and moved. */
  lemma ScenarioFirstFile()
    ensures var d := Dirs(map["a.mp4" := File(500000), "b.mp3" := File(20000)], map[]);
      var a := Probe("a.mp4", Static(500000), true, true);
      && Step(d, a) == Dirs(map["b.mp3" := File(20000)], map["a.mp4" := File(500000)])
      && Dispatches(d.watch, a)
  {
    var d := Dirs(map["a.mp4" := File(500000), "b.mp3" := File(20000)], map[]);
    var a := Probe("a.mp4", Static(500000), true, true);
    StaticIsStable(500000);
    assert "a.mp4" == "a" + ".mp4";
    MediaName("a", ".mp4");
    assert Moves(d.watch, a);
    assert d.watch - {"a.mp4"} == map["b.mp3" := File(20000)];
  }

  /** The scenario's growing `b.mp3` is never handed over and changes nothing. */
  lemma ScenarioGrowingFile(d: Dirs)
    ensures var b := Probe("b.mp3", Growing(20000, 3000), true, true);
      !Dispatches(d.watch, b) && Step(d, b) == d
  {
    GrowingIsUnstable(20000, 3000);
  }

  /** `os.rename` replaces a processed file of the same name: after a
      successful move, the processed `a.mp4` is the watched one and the
      earlier processed `a.mp4` is gone. */
  lemma SameNameReplaced()
    ensures var d := Dirs(map["a.mp4" := File(1)], map["a.mp4" := File(7)]);
      var p := Probe("a.mp4", Static(1), true, true);
      && Run(d, [p], 1) == Dirs(map[], map["a.mp4" := File(1)])
      && Dispatched(d, [p], 1) == ["a.mp4"]
  {
    var d := Dirs(map["a.mp4" := File(1)], map["a.mp4" := File(7)]);
    var p := Probe("a.mp4", Static(1), true, true);
    StaticIsStable(1);
    assert "a.mp4" == "a" + ".mp4";
    MediaName("a", ".mp4");
    assert Moves(d.watch, p);
    assert d.watch - {"a.mp4"} == map[];
    assert d.processed["a.mp4" := File(1)] == map["a.mp4" := File(1)];
  }

  /** A name made of a non-empty stem and a media extension is a media name. */
  lemma MediaName(stem: string, ext: string)
    requires stem != "" && ext in VideoExts
    ensures Lower(Suffix(stem + ext)) == ext
  {
    VideoExtsAreExtensions();
    AppendedExtension(stem, ext);
  }

  /** Idempotence: one stable eligible file is handed over once and moved;
      a second tick has nothing left to hand over. */
  lemma OneFileTwice(name: string, size: nat, second: seq<Probe>)
    requires Lower(Suffix(name)) in VideoExts
    ensures var d := Dirs(map[name := File(size)], map[]);
      var p := Probe(name, Static(size), true, true);
      var d1 := Run(d, [p], 1);
      && Dispatched(d, [p], 1) == [name]
      && d1 == Dirs(map[], map[name := File(size)])
      && Dispatched(d1, second, |second|) == []
  {
    var d := Dirs(map[name := File(size)], map[]);
    var p := Probe(name, Static(size), true, true);
    StaticIsStable(size);
    assert Moves(d.watch, p);
    var d1 := Dirs(map[], map[name := File(size)]);
    assert d.watch - {name} == d1.watch;
    assert Run(d, [p], 1) == d1;
    NothingToDispatch(d1, second, |second|);
  }

  lemma {:induction false} NothingToDispatch(d: Dirs, listing: seq<Probe>, n: nat)
    requires n <= |listing| && d.watch == map[]
    ensures Dispatched(d, listing, n) == []
  {
    if n > 0 {
      NothingToDispatch(d, listing, n - 1);
      RunShrinksWatch(d, listing, n - 1);
      NoneStep(Dispatched(d, listing, n - 1), Dispatched(d, listing, n), d.watch, Run(d, listing, n - 1).watch, listing[n - 1]);
    }
  }

  lemma NoneStep(sent: seq<string>, sent': seq<string>, watch: map<string, Entry>, current: map<string, Entry>, p: Probe)
    requires sent == [] && watch == map[] && current.Keys <= watch.Keys
    requires sent' == sent + (if Dispatches(current, p) then [p.name] else [])
    ensures sent' == []
  {
  }

  /** At-least-once delivery: a file whose first transcriber run fails and
      whose second succeeds is handed over in both ticks, ends in the
      processed directory, and is not handed over again. */
  lemma RetryAfterFailure(name: string, size: nat, third: seq<Probe>)
    requires Lower(Suffix(name)) in VideoExts
    ensures var d := Dirs(map[name := File(size)], map[]);
      var fail := Probe(name, Static(size), false, true);
      var ok := Probe(name, Static(size), true, true);
      var d1 := Run(d, [fail], 1);
      var d2 := Run(d1, [ok], 1);
      && Dispatched(d, [fail], 1) == [name] && d1 == d
      && Dispatched(d1, [ok], 1) == [name] && d2 == Dirs(map[], map[name := File(size)])
      && Dispatched(d2, third, |third|) == []
  {
    var d := Dirs(map[name := File(size)], map[]);
    var fail := Probe(name, Static(size), false, true);
    var ok := Probe(name, Static(size), true, true);
    StaticIsStable(size);
    assert Dispatches(d.watch, fail) && !Moves(d.watch, fail);
    assert Run(d, [fail], 1) == d;
    assert Moves(d.watch, ok);
    var d2 := Dirs(map[], map[name := File(size)]);
    assert d.watch - {name} == d2.watch;
    assert Run(d, [ok], 1) == d2;
    NothingToDispatch(d2, third, |third|);
  }
}
