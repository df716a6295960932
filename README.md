# protein-app core, modelled in Dafny

The application lets a user upload a PDB file, recovers the protein's
one-letter residue sequence from it, stores the protein under a short
public slug, and lets users attach labelled, coloured annotations to
ranges of residue positions. This project models the three decisions the
web handlers of `main.py` rest on:

- **Sequence extraction** (`extract_sequence_from_pdb`): a pass over the
  lines of the file that keeps ATOM records, reads the residue name
  (columns 18-20), chain identifier (column 22) and residue sequence number
  (columns 23-26) as laid out in section 9 (Coordinate Section) of the
  wwPDB Atomic Coordinate Entry Format v3.3, strips each field, skips a
  (chain, sequence number) pair already seen, and maps the residue name
  through the fixed twenty-entry table, unknown names giving `X`.
  `PdbSequence.Extract` is the functional specification, defined line by
  line through `Step`; `PdbSequence.ExtractSequence` is the loop of the
  source, with the set of residues seen and the growing sequence as its
  state, proved equal to `Extract`.
- **Upload names** (`upload_pdb`): the case-insensitive ".pdb" suffix test
  on the uploaded name and the stored name `slug + ".pdb"`.
- **The record store**: a `Store` class holding a map from slug to the
  protein and its annotations in creation order, with the upload and
  annotation handlers as methods that reject without changing anything or
  add exactly one record.

Python's `str.strip()`, clamped slicing, `startswith`, `endswith` and
`lower()` are modelled in `PyText`, with `strip()` removing exactly the
characters for which `str.isspace()` holds.

`line[21]` is indexed unguarded (main.py:99), so an ATOM line shorter
than 22 characters raises `IndexError`. The model returns
`IndexError(line)` naming the first such line, and an upload that meets it
stores nothing.

`ProteinStore.AnnotationScenario` runs the annotation handler on a
protein with a ten-residue sequence and one earlier annotation: 0..9 is
accepted and stored after the earlier annotation, 5..2 is rejected, and an
unknown slug is rejected whatever the range.

Files: `py_text.dfy` (module `PyText`), `pdb_sequence.dfy` (module
`PdbSequence`), `upload_names.dfy` (module `UploadNames`),
`protein_store.dfy` (module `ProteinStore`).

## Model

| member | source | states |
|---|---|---|
| PdbSequence.ExtractSequence | main.py:89-110 | the loop over the lines, keeping the residues seen and the codes appended so far, returns exactly the specified extraction `Extract(lines)`, including the index error on a short ATOM line |
| PdbSequence.ResidueCode | main.py:81-87 | a name gets one of the twenty standard codes exactly when it is in the table, and `X` otherwise; it never fails |
| PdbSequence.ExtractLength | main.py:98-108 | on success the output has one character per distinct (stripped chain, stripped sequence number) key among the ATOM records, so atoms of one residue and insertion codes count once |
| PdbSequence.ExtractAlphabet | main.py:81-87 | every output character is one of the twenty values of the table or `X` |
| PdbSequence.NoAtomRecords | main.py:90-96 | empty input, or input without ATOM records, yields the empty sequence |
| PdbSequence.ExtractFails | main.py:98-100 | extraction fails exactly when some ATOM line is shorter than 22 characters, and it names the first such line |
| PdbSequence.ErrorPersists | main.py:99 | once a line has failed, no later line changes the outcome: the error propagates out of the loop |
| PdbSequence.ExtractPrefix | main.py:102-108 | extracting a prefix of the lines succeeds and gives a prefix of the whole output |
| PdbSequence.ExtractCharAt | main.py:102-108 | the first ATOM record of a residue supplies the output character at the position equal to the number of distinct residues before it: output order is first-appearance order |
| PdbSequence.NonAtomIgnored | main.py:95-96 | inserting a line that does not start with ATOM anywhere (or removing one) leaves the result unchanged |
| PdbSequence.DuplicateIgnored | main.py:102-105 | duplicating any line in place leaves the result unchanged |
| PdbSequence.RecordFields | main.py:98-100 | a 26-column ATOM record whose residue name, chain identifier and right-justified sequence number carry no inner padding at their ends yields that residue name and the (chain, sequence number) key with the column padding stripped |
| PdbSequence.DuplicateAtomScenario | main.py:89-110 | two atoms of ALA A 1 followed by an atom of GLY A 2 give "AG" |
| PdbSequence.UnknownResidueScenario | main.py:107 | an ATOM record naming an unknown residue gives "X" |
| PyText.Slice | main.py:98-100 | a Python slice clamps its bounds to the string, never fails, and takes the characters from the lower bound on |
| PyText.StripLeftSpec | main.py:98-100 | `lstrip` removes a leading run of whitespace and leaves a suffix that does not start with whitespace |
| PyText.StripRightSpec | main.py:98-100 | `rstrip` removes a trailing run of whitespace and leaves a prefix that does not end with whitespace |
| PyText.StripSpec | main.py:98-100 | `strip` leaves an infix with only whitespace around it that neither starts nor ends with whitespace |
| PyText.StripPadded | main.py:98-100 | `strip` gives back any string that neither starts nor ends with whitespace from under any whitespace padding |
| PyText.Lower | main.py:136 | lowering keeps the length and lowers each character in place |
| UploadNames.IsPdbFilenameIff | main.py:136 | an upload name is accepted exactly when its last four characters are ".pdb" in any mix of case |
| UploadNames.UploadScenarios | main.py:136 | "X.PDB" and "1abc.Pdb" are accepted, "x.pdb.txt" and "pdb" are rejected |
| UploadNames.SaveName | main.py:141 | the stored name is the slug followed by ".pdb", so the slug can be read back from it |
| UploadNames.SaveNameIsPdbFilename | main.py:136-141 | every stored name itself passes the upload name check |
| UploadNames.SaveNameInjective | main.py:140-141 | distinct slugs are stored under distinct file names |
| ProteinStore.ValidRangeMeaning | main.py:218 | a range is accepted exactly when start <= end and every position it covers is a position of the sequence, that is 0 <= start <= end < length |
| ProteinStore.RangeScenarios | main.py:218-219 | 5..2 and 0..10 and -1..3 on length 10 are rejected, 0..9 is accepted, and an empty sequence rejects every range |
| ProteinStore.Store.AddAnnotation | main.py:205-231 | an unknown slug is rejected before the range is looked at; a bad range is rejected; a rejected request changes nothing; an accepted one appends exactly the given annotation to that protein and leaves every other protein as it was; every stored annotation stays within its protein's sequence |
| ProteinStore.Store.Upload | main.py:134-161 | a name failing the ".pdb" check is rejected; otherwise an extraction error or a slug already in use stores nothing; otherwise the protein is stored under the slug with the name `slug + ".pdb"`, the extracted sequence and no annotations, and nothing else changes |

## Left out

- FastAPI routing, HTTP status codes and the redirect after upload: only the accept/reject decisions are modelled, as status values.
- The extraction `IndexError` and a database unique-constraint violation on the slug are unhandled exceptions in the source (a server error); the model returns them as the statuses `ExtractionFailed` and `SlugTaken`.
- `view_protein` and the Jinja templates (main.py:167-202) are presentation code and are not modelled; nor is its ordering by `created_at`, which depends on the clock and the database. The store's annotation list keeps creation order instead.
- SQLAlchemy engine, sessions, tables, row ids and timestamps (main.py:10-73, 117-122): the store is an abstract map from slug to record.
- File I/O: the uploaded bytes are written to the upload directory before extraction, so the file left behind by a failed upload, an overwrite of an existing file, errors opening or decoding the file and newline translation are not modelled; the extractor is given the file's lines.
- Slug generation with `uuid.uuid4().hex[:10]` is randomness: the slug is a parameter of `Upload`.
- A missing upload file name (`None`) is not modelled: the name is always a string.
- The async and concurrent execution of the handlers.
- PyText.Lower: folds only ASCII `A`-`Z` and keeps every other character, while Python's `lower()` also lowers other Unicode letters (some into two characters); the ".pdb" test depends only on how the last characters lower, and no non-ASCII letter lowers to `.`, `p`, `d` or `b`, but the model does not state or prove that.
