/**
 * Output file names derived from track metadata: Program.MakeFilenameSafe,
 * the "{artist}_{title}.wav" name the detector hands to the exporter, and
 * the ".mp3" name it uses for its own existence check (Path.ChangeExtension).
 */
module FileNames {

  import opened Wrappers

  /** A file inside a directory; Path.Combine(dir, name) is not interpreted further. */
  datatype FilePath = FilePath(dir: string, name: string)

  /** The character every invalid file-name character is replaced by. */
  const Placeholder: char := '_'

  /**
   * The characters Path.GetInvalidFileNameChars() returns on Windows, the
   * platform the recorder runs on: '"', '<', '>', '|', the control
   * characters U+0000 to U+001F, ':', '*', '?', '\' and '/'.
   */
  const InvalidFileNameChars: seq<char> :=
    ['"', '<', '>', '|',
     '\U{0}', '\U{1}', '\U{2}', '\U{3}', '\U{4}', '\U{5}', '\U{6}', '\U{7}',
     '\U{8}', '\U{9}', '\U{a}', '\U{b}', '\U{c}', '\U{d}', '\U{e}', '\U{f}',
     '\U{10}', '\U{11}', '\U{12}', '\U{13}', '\U{14}', '\U{15}', '\U{16}', '\U{17}',
     '\U{18}', '\U{19}', '\U{1a}', '\U{1b}', '\U{1c}', '\U{1d}', '\U{1e}', '\U{1f}',
     ':', '*', '?', '\\', '/']

  /** Membership in InvalidFileNameChars, stated as a range and a short list. */
  predicate IsInvalidFileNameChar(c: char) {
    c < 32 as char || c in "\"<>|:*?\\/"
  }

  lemma InvalidFileNameCharsListed(c: char)
    ensures c in InvalidFileNameChars <==> IsInvalidFileNameChar(c)
  {
  }

  /** The per-character map MakeFilenameSafe amounts to. */
  function SafeChar(c: char): char {
    if IsInvalidFileNameChar(c) then Placeholder else c
  }

  /** The specification of MakeFilenameSafe: every character mapped by SafeChar. */
  function Sanitized(s: string): string {
    seq(|s|, i requires 0 <= i < |s| => SafeChar(s[i]))
  }

  /**
   * String.Replace(char, char): every occurrence of `from` becomes `to`.
   */
  function Replace(s: string, from: char, to: char): (r: string)
    ensures |r| == |s|
    ensures forall i :: 0 <= i < |s| ==> r[i] == (if s[i] == from then to else s[i])
  {
    if s == [] then []
    else [if s[0] == from then to else s[0]] + Replace(s[1..], from, to)
  }

  /**
   * Program.MakeFilenameSafe: replaces, one invalid character after the
   * other, every occurrence of it by the placeholder.
   */
  method MakeFilenameSafe(input: string) returns (output: string)
    ensures output == Sanitized(input)
  {
    InvalidFileNameCharsListed(Placeholder);
    output := input;
    for k := 0 to |InvalidFileNameChars|
      invariant |output| == |input|
      invariant forall i :: 0 <= i < |input| ==>
        output[i] == (if input[i] in InvalidFileNameChars[..k] then Placeholder else input[i])
    {
      output := Replace(output, InvalidFileNameChars[k], Placeholder);
      forall i | 0 <= i < |input|
        ensures output[i] == (if input[i] in InvalidFileNameChars[..k + 1] then Placeholder else input[i])
      {
        assert InvalidFileNameChars[..k + 1] == InvalidFileNameChars[..k] + [InvalidFileNameChars[k]];
        assert InvalidFileNameChars[k] in InvalidFileNameChars;
      }
    }
    assert InvalidFileNameChars[..|InvalidFileNameChars|] == InvalidFileNameChars;
    forall i | 0 <= i < |input| ensures output[i] == SafeChar(input[i]) {
      InvalidFileNameCharsListed(input[i]);
    }
  }

  lemma SanitizedLength(s: string)
    ensures |Sanitized(s)| == |s|
  {
  }

  /** No invalid character survives sanitising. */
  lemma SanitizedHasNoInvalidChar(s: string)
    ensures forall i :: 0 <= i < |s| ==> !IsInvalidFileNameChar(Sanitized(s)[i])
  {
  }

  /** Exactly the invalid characters change: a valid one is kept, an invalid one becomes the placeholder. */
  lemma SanitizedKeepsValidChars(s: string)
    ensures forall i :: 0 <= i < |s| ==> (Sanitized(s)[i] == s[i] <==> !IsInvalidFileNameChar(s[i]))
  {
  }

  /** Sanitising a sanitised name changes nothing. */
  lemma SanitizedIdempotent(s: string)
    ensures Sanitized(Sanitized(s)) == Sanitized(s)
  {
    SanitizedHasNoInvalidChar(s);
  }

  /** The name Program hands to the exporter: "{safe artist}_{safe title}.wav". */
  function WavFileName(artist: string, title: string): string {
    Sanitized(artist) + "_" + Sanitized(title) + ".wav"
  }

  /** The index of the last '.' of `path` that is not followed by a directory separator. */
  function ExtensionDot(path: string): (r: Option<nat>)
    ensures r.Some? ==> r.value < |path| && path[r.value] == '.'
    ensures r.Some? ==> forall j :: r.value < j < |path| ==> path[j] != '.' && !IsSeparator(path[j])
    ensures r.None? ==> forall j :: 0 <= j < |path| && path[j] == '.' ==> exists k :: j < k < |path| && IsSeparator(path[k])
  {
    if path == [] then None
    else if path[|path| - 1] == '.' then Some(|path| - 1)
    else if IsSeparator(path[|path| - 1]) then None
    else
      var prefix := path[..|path| - 1];
      var r := ExtensionDot(prefix);
      assert forall k :: 0 <= k < |prefix| ==> prefix[k] == path[k];
      r
  }

  /** A directory separator on the recorder's platform: '\\' or '/'. */
  predicate IsSeparator(c: char) {
    c == '\\' || c == '/'
  }

  /**
   * Path.ChangeExtension(path, extension) for a non-null extension: the part
   * after the last '.' of the file name is replaced; a missing leading '.' of
   * the extension is added; an empty path stays empty.
   */
  function ChangeExtension(path: string, extension: string): string {
    if path == [] then path
    else
      var stem := match ExtensionDot(path) case Some(i) => path[..i] case None => path;
      stem + (if extension != [] && extension[0] == '.' then "" else ".") + extension
  }

  /** The name of the file Program looks for before it exports or marks a track. */
  function Mp3FileName(artist: string, title: string): string {
    ChangeExtension(WavFileName(artist, title), ".mp3")
  }

  /** The dot found by ExtensionDot is the last one, provided no dot or separator follows it. */
  lemma {:induction false} ExtensionDotOfSuffix(stem: string, ext: string)
    requires forall j :: 0 <= j < |ext| ==> ext[j] != '.' && ext[j] != '\\' && ext[j] != '/'
    ensures ExtensionDot(stem + "." + ext) == Some(|stem|)
  {
    var p := stem + "." + ext;
    if ext == [] {
      assert p[|p| - 1] == '.';
    } else {
      var shorter := ext[..|ext| - 1];
      assert p[..|p| - 1] == stem + "." + shorter;
      assert p[|p| - 1] == ext[|ext| - 1];
      ExtensionDotOfSuffix(stem, shorter);
    }
  }

  /** The checked name is the exported name with ".wav" replaced by ".mp3". */
  lemma Mp3FileNameSwapsExtension(artist: string, title: string)
    ensures Mp3FileName(artist, title) == Sanitized(artist) + "_" + Sanitized(title) + ".mp3"
  {
    var stem := Sanitized(artist) + "_" + Sanitized(title);
    assert WavFileName(artist, title) == stem + "." + "wav";
    ExtensionDotOfSuffix(stem, "wav");
    assert (stem + "." + "wav")[..|stem|] == stem;
  }

  /** A string free of every character Path.GetInvalidFileNameChars() lists. */
  predicate HasNoInvalidChar(s: string) {
    forall i :: 0 <= i < |s| ==> !IsInvalidFileNameChar(s[i])
  }

  /** Neither generated name contains an invalid file-name character. */
  lemma FileNamesAreValid(artist: string, title: string)
    ensures HasNoInvalidChar(WavFileName(artist, title))
    ensures HasNoInvalidChar(Mp3FileName(artist, title))
  {
    var a, t := Sanitized(artist), Sanitized(title);
    SanitizedHasNoInvalidChar(artist);
    SanitizedHasNoInvalidChar(title);
    assert HasNoInvalidChar("_");
    ConcatHasNoInvalidChar(a, "_");
    ConcatHasNoInvalidChar(a + "_", t);
    ConcatHasNoInvalidChar(a + "_" + t, ".wav");
    ConcatHasNoInvalidChar(a + "_" + t, ".mp3");
    Mp3FileNameSwapsExtension(artist, title);
  }

  lemma ConcatHasNoInvalidChar(a: string, b: string)
    requires HasNoInvalidChar(a) && HasNoInvalidChar(b)
    ensures HasNoInvalidChar(a + b)
  {
  }

  /** The name Program checks is never the name the exporter writes, whatever the pair. */
  lemma CheckedNameIsNotExportedName(artist: string, title: string)
    ensures Mp3FileName(artist, title) != WavFileName(artist, title)
  {
    Mp3FileNameSwapsExtension(artist, title);
    var m, w := Mp3FileName(artist, title), WavFileName(artist, title);
    assert m[|m| - 3] == 'm' && w[|w| - 3] == 'w';
  }
}
