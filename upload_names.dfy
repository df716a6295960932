/** The file-name rules of the upload operation: which uploaded names are
    accepted, and the name under which an accepted upload is stored. */
module UploadNames {
  import opened PyText

  const PdbExtension: string := ".pdb"

  /** `filename.lower().endswith(".pdb")` */
  predicate IsPdbFilename(filename: string) {
    EndsWith(Lower(filename), PdbExtension)
  }

  /** `f"{slug}.pdb"`: the slug followed by the extension, so the slug can
      be read back from the stored name. */
  function SaveName(slug: string): (name: string)
    ensures |name| == |slug| + |PdbExtension|
    ensures name[..|slug|] == slug && name[|slug|..] == PdbExtension
  {
    slug + PdbExtension
  }

  /** The check is a case-insensitive test of the last four characters. */
  lemma IsPdbFilenameIff(filename: string)
    ensures IsPdbFilename(filename) <==>
              && |filename| >= 4
              && filename[|filename| - 4] == '.'
              && filename[|filename| - 3] in {'p', 'P'}
              && filename[|filename| - 2] in {'d', 'D'}
              && filename[|filename| - 1] in {'b', 'B'}
  {
    var n := |filename|;
    if n >= 4 {
      var tail := Lower(filename)[n - 4..];
      assert tail == [LowerChar(filename[n - 4]), LowerChar(filename[n - 3]),
                      LowerChar(filename[n - 2]), LowerChar(filename[n - 1])];
    }
  }

  /** Every stored name passes the upload check itself. */
  lemma SaveNameIsPdbFilename(slug: string)
    ensures IsPdbFilename(SaveName(slug))
  {
    IsPdbFilenameIff(SaveName(slug));
  }

  /** Uploads with distinct slugs never share a stored file name. */
  lemma SaveNameInjective(a: string, b: string)
    requires SaveName(a) == SaveName(b)
    ensures a == b
  {
    assert |a| == |b|;
    assert a == SaveName(a)[..|a|];
  }

  lemma UploadScenarios()
    ensures IsPdbFilename("X.PDB")
    ensures IsPdbFilename("1abc.Pdb")
    ensures !IsPdbFilename("x.pdb.txt")
    ensures !IsPdbFilename("pdb")
  {
    IsPdbFilenameIff("X.PDB");
    IsPdbFilenameIff("1abc.Pdb");
    IsPdbFilenameIff("x.pdb.txt");
    IsPdbFilenameIff("pdb");
  }
}
