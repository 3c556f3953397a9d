/** File-name handling shared by the watcher and the transcriber: the
    ASCII part of Python's `str.lower`, and the `suffix` and `stem` of the
    final component of a `pathlib.Path`. */
module PathNames {

  /** A resolved path, as its sequence of components. */
  type Path = seq<string>

  /** The final component (`Path.name`); the root has the empty name. */
  function Name(p: Path): string
  {
    if p == [] then "" else p[|p| - 1]
  }

  /** `dir / name` */
  function Join(dir: Path, name: string): (p: Path)
    ensures |p| == |dir| + 1 && Name(p) == name && p[..|dir|] == dir
  {
    dir + [name]
  }

  function LowerChar(c: char): char
  {
    if 'A' <= c <= 'Z' then (c as int + 32) as char else c
  }

  /** `str.lower` on ASCII letters; every other character is kept. */
  function Lower(s: string): (r: string)
    ensures |r| == |s|
    ensures forall i :: 0 <= i < |s| ==> r[i] == LowerChar(s[i])
  {
    seq(|s|, i requires 0 <= i < |s| => LowerChar(s[i]))
  }

  /** What lower-casing is for: no ASCII upper-case letter is left, each
      upper-case letter becomes its lower-case partner, every other
      character is kept, and lower-casing again changes nothing. */
  lemma LowerFacts(s: string)
    ensures |Lower(s)| == |s|
    ensures forall i :: 0 <= i < |s| ==> !('A' <= Lower(s)[i] <= 'Z')
    ensures forall i :: 0 <= i < |s| && 'A' <= s[i] <= 'Z' ==> Lower(s)[i] as int == s[i] as int - 'A' as int + 'a' as int
    ensures forall i :: 0 <= i < |s| && !('A' <= s[i] <= 'Z') ==> Lower(s)[i] == s[i]
    ensures Lower(Lower(s)) == Lower(s)
  {
  }

  /** `str.rfind('.')`: the index of the last dot, or -1 when there is none. */
  function LastDot(s: string): (i: int)
    ensures -1 <= i < |s|
    ensures i >= 0 ==> s[i] == '.'
    ensures forall j :: i < j < |s| ==> s[j] != '.'
  {
    if s == [] then -1
    else if s[|s| - 1] == '.' then |s| - 1
    else LastDot(s[..|s| - 1])
  }

  /** `PurePath.suffix`: from the last dot on, unless that dot starts the
      name (a hidden file) or ends it, as pathlib's own rule
      `0 < i < len(name) - 1` says. */
  function Suffix(name: string): string
  {
    var i := LastDot(name);
    if 0 < i < |name| - 1 then name[i..] else ""
  }

  /** `PurePath.stem`: the name without its suffix. */
  function Stem(name: string): string
  {
    var i := LastDot(name);
    if 0 < i < |name| - 1 then name[..i] else name
  }

  /** An extension as the allow-sets spell them: a dot, then at least one
      character, none of them a dot, all already lower-case. */
  predicate IsExtension(e: string)
  {
    IsExtensionShape(e) && Lower(e) == e
  }

  /** The stem and the suffix split the name: neither loses a character. */
  lemma StemSuffixSplit(name: string)
    ensures Stem(name) + Suffix(name) == name
    ensures Suffix(name) == "" || IsExtensionShape(Suffix(name))
  {
  }

  /** A suffix is empty or a dot followed by at least one non-dot. */
  predicate IsExtensionShape(e: string)
  {
    |e| >= 2 && e[0] == '.' && forall j :: 1 <= j < |e| ==> e[j] != '.'
  }

  /** The last dot of `stem + ext` is the one that starts `ext`. */
  lemma LastDotOfAppended(stem: string, ext: string)
    requires IsExtensionShape(ext)
    ensures LastDot(stem + ext) == |stem|
  {
    var n := stem + ext;
    assert n[|stem|] == '.';
    assert forall j :: |stem| < j < |n| ==> n[j] == ext[j - |stem|];
  }

  /** Appending an extension to a non-empty stem gives a name whose suffix
      is that extension and whose stem is the original stem. */
  lemma AppendedExtension(stem: string, ext: string)
    requires stem != [] && IsExtensionShape(ext)
    ensures Suffix(stem + ext) == ext
    ensures Stem(stem + ext) == stem
  {
    LastDotOfAppended(stem, ext);
    assert (stem + ext)[|stem|..] == ext;
    assert (stem + ext)[..|stem|] == stem;
  }

  /** The stem of a non-empty name is non-empty. */
  lemma StemNonEmpty(name: string)
    requires name != ""
    ensures Stem(name) != ""
  {
  }

  /** Lower-casing keeps dots where they are and adds none. */
  lemma LowerKeepsDots(s: string)
    ensures forall j :: 0 <= j < |s| ==> (Lower(s)[j] == '.' <==> s[j] == '.')
  {
  }

  /** The lower-cased suffix equals an extension exactly when the name is
      longer than the extension and its lower-cased tail spells it: an
      independent characterisation of `name.suffix.lower() == ext`. */
  lemma {:induction false} LowerSuffixIs(name: string, ext: string)
    requires IsExtension(ext)
    ensures Lower(Suffix(name)) == ext <==>
            |name| > |ext| && Lower(name[|name| - |ext|..]) == ext
  {
    var k := |name| - |ext|;
    if Lower(Suffix(name)) == ext {
      var i := LastDot(name);
      assert 0 < i < |name| - 1;
      assert Suffix(name) == name[i..];
      assert |name| - i == |ext|;
    }
    if |name| > |ext| && Lower(name[k..]) == ext {
      var tail := name[k..];
      LowerKeepsDots(tail);
      assert tail[0] == '.';
      assert forall j :: 1 <= j < |tail| ==> tail[j] != '.';
      assert name == name[..k] + tail;
      LastDotOfAppended(name[..k], tail);
      assert LastDot(name) == k;
    }
  }
}
