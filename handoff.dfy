/** Where the two programs meet: the watcher hands a media file to the
    transcriber, which decides from the same suffix whether to read it
    directly or to extract its audio first. */
module Handoff {
  import opened PathNames
  import WatchFolder
  import Transcribe

  /** Every suffix the transcriber reads directly is one the watcher takes. */
  lemma AudioExtsAreMedia()
    ensures Transcribe.AudioExts <= WatchFolder.VideoExts
    ensures WatchFolder.VideoExts - Transcribe.AudioExts == {".mp4", ".mov", ".mkv"}
  {
  }

  /** A regular file with an audio suffix in the watch directory is always
      one the watcher takes. */
  lemma AudioFilesAreTaken(watch: map<string, WatchFolder.Entry>, name: string)
    requires name in watch && watch[name].File? && Transcribe.IsAudio(name)
    ensures WatchFolder.Eligible(watch, name)
  {
    AudioExtsAreMedia();
  }

  /** A file the watcher hands over is read directly when it is audio, and
      otherwise is a video (`.mp4`, `.mov`, `.mkv`) whose audio is first
      extracted to `<out>/<stem>.wav`. */
  lemma HandedOverPath(watch: map<string, WatchFolder.Entry>, name: string, watchDir: Path, outDir: Path, keepWav: bool)
    requires WatchFolder.Eligible(watch, name)
    ensures var input := Join(watchDir, name);
      var p := Transcribe.PlanFor(input, outDir, keepWav);
      && (Transcribe.IsAudio(name) ==> p.audio == input && !p.extract && !p.removeWav)
      && (!Transcribe.IsAudio(name) ==>
            && Lower(Suffix(name)) in {".mp4", ".mov", ".mkv"}
            && p.extract && p.audio == Join(outDir, Stem(name) + ".wav"))
  {
    AudioExtsAreMedia();
    Transcribe.AudioChoice(Join(watchDir, name), outDir, keepWav);
  }
}
