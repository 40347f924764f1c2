/** `sanitize_filename` of combine.py:135-140: the characters that Windows
    forbids in file names are removed one kind at a time with `str.replace`,
    and the result is cut to 200 characters. */
module Sanitize {
  import opened Wrappers
  import opened Seqs
  import opened Text

  /** The forbidden characters, in the order the loop removes them. */
  const InvalidChars: string := "<>:\"/\\|?*"

  const MaxFilenameLength: nat := 200

  /** The sanitised name: the input without forbidden characters, the others
      in order, at most 200 of them. */
  function Sanitized(filename: string): (r: string)
    ensures |r| <= MaxFilenameLength
    ensures forall c :: c in r ==> c !in InvalidChars
    ensures |r| == Min(MaxFilenameLength, |Keep(filename, InvalidChars)|)
    ensures r == Keep(filename, InvalidChars)[..|r|]
  {
    var kept := Keep(filename, InvalidChars);
    KeepFacts(filename, InvalidChars);
    PyPrefix(kept, MaxFilenameLength)
  }

  /** The loop of the source: `filename = filename.replace(char, '')` for each
      forbidden character, then `filename[:200]`. */
  method SanitizeFilename(filename: string) returns (r: string)
    ensures r == Sanitized(filename)
  {
    var name := filename;
    KeepNoop(filename, InvalidChars[..0]);
    for i := 0 to |InvalidChars|
      invariant name == Keep(filename, InvalidChars[..i])
    {
      ReplaceCharByNothing(name, InvalidChars[i]);
      KeepCompose(filename, InvalidChars[..i], [InvalidChars[i]]);
      assert InvalidChars[..i] + [InvalidChars[i]] == InvalidChars[..i + 1];
      name := ReplaceAll(name, [InvalidChars[i]], "");
    }
    assert InvalidChars[..|InvalidChars|] == InvalidChars;
    r := PyPrefix(name, MaxFilenameLength);
  }

  /** Sanitising a sanitised name changes nothing. */
  lemma SanitizedIdempotent(filename: string)
    ensures Sanitized(Sanitized(filename)) == Sanitized(filename)
  {
    var r := Sanitized(filename);
    KeepNoop(r, InvalidChars);
  }

  /** The result keeps the input's characters in their order: it is an
      order-preserving subsequence of the input. */
  lemma SanitizedSubseq(filename: string)
    ensures IsSubseq(Sanitized(filename), filename)
  {
    var kept := Keep(filename, InvalidChars);
    KeepSubseq(filename, InvalidChars);
    PrefixIsSubseq(kept, |Sanitized(filename)|);
    SubseqTrans(Sanitized(filename), kept, filename);
  }

  /** A name that is already valid and short enough comes back unchanged. */
  lemma SanitizedValidName(filename: string)
    requires forall c :: c in filename ==> c !in InvalidChars
    requires |filename| <= MaxFilenameLength
    ensures Sanitized(filename) == filename
  {
    KeepNoop(filename, InvalidChars);
  }

  /** Only forbidden characters are dropped: within the first 200 kept
      characters, every allowed character of the input survives. */
  lemma SanitizedKeepsAllowed(filename: string)
    requires |Keep(filename, InvalidChars)| <= MaxFilenameLength
    ensures forall c :: c in Sanitized(filename) <==> c in filename && c !in InvalidChars
  {
    KeepFacts(filename, InvalidChars);
  }
}
