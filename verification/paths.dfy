/** Python's `os.path.splitext` on POSIX paths, which names the patient of a document. */
module Paths {

  /** Position of the last `c` in `s`, or -1 when there is none. */
  function LastIndexOf(s: string, c: char): (i: int)
    ensures -1 <= i < |s|
    ensures i >= 0 ==> s[i] == c
    ensures forall j :: i < j < |s| ==> s[j] != c
  {
    if |s| == 0 then -1
    else if s[|s| - 1] == c then |s| - 1
    else LastIndexOf(s[..|s| - 1], c)
  }

  /**
   * `os.path.splitext(p)`: splits off the text from the last `.` of the final
   * path component, unless every character before that dot in the component
   * is itself a dot (so `.bashrc` has no extension).
   */
  function SplitExt(p: string): (r: (string, string))
    ensures r.0 + r.1 == p
    ensures r.1 == [] || r.1[0] == '.'
    ensures forall j :: 0 < j < |r.1| ==> r.1[j] != '.' && r.1[j] != '/'
  {
    var sepIndex := LastIndexOf(p, '/');
    var dotIndex := LastIndexOf(p, '.');
    if dotIndex > sepIndex && exists j :: sepIndex < j < dotIndex && p[j] != '.' then
      (p[..dotIndex], p[dotIndex..])
    else
      (p, "")
  }

  /** `os.path.splitext(file_name)[0]`, the patient a document belongs to. */
  function PatientName(fileName: string): string
  {
    SplitExt(fileName).0
  }

  predicate IsExtension(ext: string)
  {
    |ext| > 0 && ext[0] == '.' && forall j :: 0 < j < |ext| ==> ext[j] != '.' && ext[j] != '/'
  }

  /** A plain file name: no directory separator and not made of dots alone. */
  predicate IsStem(stem: string)
  {
    (forall j :: 0 <= j < |stem| ==> stem[j] != '/') && exists j :: 0 <= j < |stem| && stem[j] != '.'
  }

  /** `splitext` takes apart exactly what appending an extension to a plain stem put together. */
  lemma SplitExtOfStem(stem: string, ext: string)
    requires IsStem(stem) && IsExtension(ext)
    ensures SplitExt(stem + ext) == (stem, ext)
  {
    var p := stem + ext;
    var dotIndex := LastIndexOf(p, '.');
    assert p[|stem|] == '.';
    assert dotIndex == |stem|;
    var sepIndex := LastIndexOf(p, '/');
    assert sepIndex == -1;
    var j :| 0 <= j < |stem| && stem[j] != '.';
    assert p[j] == stem[j];
    assert p[..dotIndex] == stem;
    assert p[dotIndex..] == ext;
  }

  /** A name without any dot is its own patient name. */
  lemma SplitExtNoDot(p: string)
    requires forall j :: 0 <= j < |p| ==> p[j] != '.'
    ensures SplitExt(p) == (p, "")
  {
  }
}
