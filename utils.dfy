/**
  * The file-name sanitiser `safe_filename` (utils.py): every character that
  * is not alphanumeric or one of '-', '_' and '.' becomes '_'.
  */
module Utils {
  import opened Text

  /** Characters a safe file name may hold. */
  predicate IsSafe(c: char) {
    IsAlnum(c) || c == '-' || c == '_' || c == '.'
  }

  /** The character that replaces `c`. */
  function SafeChar(c: char): (d: char)
    ensures IsSafe(d)
    ensures IsSafe(c) ==> d == c
    ensures !IsSafe(c) ==> d == '_'
  {
    if IsSafe(c) then c else '_'
  }

  /** `safe_filename(filename)`: the join of the replaced characters. */
  function SafeFilename(filename: string): (r: string)
    ensures |r| == |filename|
    ensures forall i :: 0 <= i < |r| ==> r[i] == SafeChar(filename[i])
  {
    if filename == [] then [] else [SafeChar(filename[0])] + SafeFilename(filename[1..])
  }

  /** A safe name holds only safe characters. */
  lemma SafeFilenameSafe(filename: string)
    ensures forall i :: 0 <= i < |SafeFilename(filename)| ==> IsSafe(SafeFilename(filename)[i])
  {
  }

  /** A name is left as it is exactly when all of its characters are safe. */
  lemma SafeFilenameFixed(filename: string)
    ensures SafeFilename(filename) == filename <==> forall i :: 0 <= i < |filename| ==> IsSafe(filename[i])
  {
    if SafeFilename(filename) == filename {
      forall i | 0 <= i < |filename| ensures IsSafe(filename[i]) {
        assert SafeFilename(filename)[i] == filename[i];
      }
    }
  }

  /** Sanitising twice is sanitising once. */
  lemma SafeFilenameIdempotent(filename: string)
    ensures SafeFilename(SafeFilename(filename)) == SafeFilename(filename)
  {
    SafeFilenameSafe(filename);
    SafeFilenameFixed(SafeFilename(filename));
  }
}
