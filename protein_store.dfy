/** The record store behind the web handlers: proteins keyed by their
    public slug, each with its annotations in creation order. The
    annotation handler (`add_annotation`) and the upload handler
    (`upload_pdb`) are modelled by their accept/reject decisions and their
    effect on the store. */
module ProteinStore {
  import opened PdbSequence
  import opened UploadNames

  datatype Protein = Protein(slug: string, filename: string, sequence: string)

  /** A range of residue positions, 0-based and inclusive at both ends,
      with a free-text label and a display colour. */
  datatype Annotation = Annotation(startIndex: int, endIndex: int, labelText: string, color: string)

  /** A protein and its annotations, oldest first. */
  datatype Entry = Entry(protein: Protein, annotations: seq<Annotation>)

  datatype AnnotationStatus = Added | NotFound | InvalidRange

  /** Outcomes of an upload: a new record, a rejected file name (HTTP 400),
      the index error of extraction, or a slug already in use (the unique
      constraint of the slug column). */
  datatype UploadStatus = Created | NotPdbFile | ExtractionFailed(line: string) | SlugTaken

  /** The range gate of `add_annotation`. */
  predicate ValidRange(length: int, start: int, end: int) {
    !(start < 0 || end >= length || start > end)
  }

  /** `k` is a position of a sequence of the given length. */
  predicate IsPosition(length: int, k: int) {
    0 <= k < length
  }

  /** A range passes the gate exactly when it covers at least one position
      and every position it covers is a position of the sequence. */
  lemma ValidRangeMeaning(length: int, start: int, end: int)
    ensures ValidRange(length, start, end) <==>
              start <= end && forall k :: start <= k <= end ==> IsPosition(length, k)
  {
    if start <= end && forall k :: start <= k <= end ==> IsPosition(length, k) {
      assert IsPosition(length, start) && IsPosition(length, end);
    }
  }

  lemma RangeScenarios()
    ensures !ValidRange(10, 5, 2)
    ensures ValidRange(10, 0, 9)
    ensures !ValidRange(10, 0, 10) && !ValidRange(10, -1, 3)
    ensures forall start, end :: !ValidRange(0, start, end)
  {
  }

  /** Every annotation of the entry lies within its protein's sequence. */
  predicate AnnotationsInRange(e: Entry) {
    forall a :: a in e.annotations ==> ValidRange(|e.protein.sequence|, a.startIndex, a.endIndex)
  }

  /** What the store keeps true of a record filed under `slug`. */
  predicate WellFormed(slug: string, e: Entry) {
    && e.protein.slug == slug
    && e.protein.filename == SaveName(slug)
    && AnnotationsInRange(e)
  }

  class Store {
    var entries: map<string, Entry>

    ghost predicate Valid()
      reads this
    {
      forall slug :: slug in entries ==> WellFormed(slug, entries[slug])
    }

    constructor ()
      ensures Valid() && entries == map[]
    {
      entries := map[];
    }

    /** `add_annotation`: an unknown slug is rejected first, then a range
        outside the protein's sequence; only an accepted request appends,
        and it appends exactly one annotation to that protein alone. */
    method AddAnnotation(slug: string, startIndex: int, endIndex: int, labelText: string, color: string)
      returns (status: AnnotationStatus)
      requires Valid()
      modifies this
      ensures Valid()
      ensures status == NotFound <==> slug !in old(entries)
      ensures status == InvalidRange <==>
                slug in old(entries) && !ValidRange(|old(entries)[slug].protein.sequence|, startIndex, endIndex)
      ensures status != Added ==> entries == old(entries)
      ensures status == Added ==>
                entries == old(entries)[slug := Entry(old(entries)[slug].protein,
                                                      old(entries)[slug].annotations
                                                      + [Annotation(startIndex, endIndex, labelText, color)])]
    {
      if slug !in entries {
        return NotFound;
      }
      var entry := entries[slug];
      if startIndex < 0 || endIndex >= |entry.protein.sequence| || startIndex > endIndex {
        return InvalidRange;
      }
      var ann := Annotation(startIndex, endIndex, labelText, color);
      entries := entries[slug := Entry(entry.protein, entry.annotations + [ann])];
      status := Added;
    }

    /** `upload_pdb`, given the slug it draws: the file name must end in
        ".pdb" in any case; the lines are extracted; the new protein is
        stored under the slug with the stored file name and no annotations. */
    method Upload(slug: string, filename: string, lines: seq<string>) returns (status: UploadStatus)
      requires Valid()
      modifies this
      ensures Valid()
      ensures status == NotPdbFile <==> !IsPdbFilename(filename)
      ensures status.ExtractionFailed? <==> IsPdbFilename(filename) && Extract(lines).IndexError?
      ensures status.ExtractionFailed? ==> status.line == Extract(lines).line
      ensures status == SlugTaken <==> IsPdbFilename(filename) && Extract(lines).Ok? && slug in old(entries)
      ensures status != Created ==> entries == old(entries)
      ensures status == Created ==>
                entries == old(entries)[slug := Entry(Protein(slug, SaveName(slug), Extract(lines).sequence), [])]
    {
      if !IsPdbFilename(filename) {
        return NotPdbFile;
      }
      var saveName := SaveName(slug);
      var extracted := ExtractSequence(lines);
      if extracted.IndexError? {
        return ExtractionFailed(extracted.line);
      }
      if slug in entries {
        return SlugTaken;
      }
      entries := entries[slug := Entry(Protein(slug, saveName, extracted.sequence), [])];
      status := Created;
    }
  }

  /** On a protein with a ten-residue sequence and one earlier annotation:
      0..9 is accepted and stored after the earlier one, 5..2 is rejected,
      and an unknown slug is rejected whatever the range. */
  method AnnotationScenario(store: Store, slug: string, other: string, earlier: Annotation)
    requires store.Valid()
    requires slug in store.entries && other !in store.entries
    requires |store.entries[slug].protein.sequence| == 10
    requires store.entries[slug].annotations == [earlier]
    modifies store
  {
    var first := store.AddAnnotation(slug, 0, 9, "whole chain", "#ff0000");
    assert first == Added;
    var second := store.AddAnnotation(slug, 5, 2, "inverted", "#00ff00");
    assert second == InvalidRange;
    var missing := store.AddAnnotation(other, 0, 0, "nowhere", "#0000ff");
    assert missing == NotFound;
    assert store.entries[slug].annotations == [earlier, Annotation(0, 9, "whole chain", "#ff0000")];
  }
}
