/** Recovery of a protein's one-letter residue sequence from the text of a
    PDB file (`extract_sequence_from_pdb`). The file is given as its lines;
    a line may still end in its newline, as Python's line iteration leaves
    it. Only ATOM records count; their fields follow the fixed columns of
    section 9 (Coordinate Section) of the wwPDB Atomic Coordinate Entry
    Format v3.3: residue name in columns 18-20, chain identifier in column
    22, residue sequence number in columns 23-26. */
module PdbSequence {
  import opened PyText

  /** The fixed three-letter to one-letter table of the twenty standard
      amino acids. */
  const Res3To1: map<string, char> := map[
    "ALA" := 'A', "CYS" := 'C', "ASP" := 'D', "GLU" := 'E',
    "PHE" := 'F', "GLY" := 'G', "HIS" := 'H', "ILE" := 'I',
    "LYS" := 'K', "LEU" := 'L', "MET" := 'M', "ASN" := 'N',
    "PRO" := 'P', "GLN" := 'Q', "ARG" := 'R', "SER" := 'S',
    "THR" := 'T', "VAL" := 'V', "TRP" := 'W', "TYR" := 'Y'
  ]

  /** The code given to a residue name the table does not know. */
  const UnknownResidue: char := 'X'

  /** The one-letter codes the table can produce. */
  const StandardCodes: set<char> := {
    'A', 'C', 'D', 'E', 'F', 'G', 'H', 'I', 'K', 'L',
    'M', 'N', 'P', 'Q', 'R', 'S', 'T', 'V', 'W', 'Y'
  }

  /** 0-based index of the chain identifier column; a shorter line has no
      chain identifier and indexing it fails. */
  const ChainColumn: nat := 21

  /** `RES3_TO_1.get(name, "X")`: a standard code exactly for the names
      in the table, the unknown-residue marker otherwise. */
  function ResidueCode(name: string): (c: char)
    ensures c in StandardCodes <==> name in Res3To1
    ensures c !in StandardCodes ==> c == UnknownResidue
  {
    assert forall n :: n in Res3To1 ==> Res3To1[n] in StandardCodes;
    if name in Res3To1 then Res3To1[name] else UnknownResidue
  }

  /** `line.startswith("ATOM")` */
  predicate IsAtomRecord(line: string) {
    StartsWith(line, "ATOM")
  }

  /** An ATOM record too short to hold a chain identifier. */
  predicate IsShortAtom(line: string) {
    IsAtomRecord(line) && |line| <= ChainColumn
  }

  /** An ATOM record from which all three fields can be read. */
  predicate IsResidueRecord(line: string) {
    IsAtomRecord(line) && |line| > ChainColumn
  }

  /** A residue is identified by its chain and its sequence number, both
      stripped; the insertion code (column 27) is not part of it. */
  datatype ResidueKey = ResidueKey(chain: string, resSeq: string)

  /** `line[17:20].strip()` */
  function ResName(line: string): string {
    Strip(Slice(line, 17, 20))
  }

  /** `line[21].strip()` */
  function ChainId(line: string): string
    requires |line| > ChainColumn
  {
    Strip([line[ChainColumn]])
  }

  /** `line[22:26].strip()` */
  function ResSeq(line: string): string {
    Strip(Slice(line, 22, 26))
  }

  function KeyOf(line: string): ResidueKey
    requires |line| > ChainColumn
  {
    ResidueKey(ChainId(line), ResSeq(line))
  }

  /** The residues named by the ATOM records among `lines`. */
  function KeysOf(lines: seq<string>): set<ResidueKey> {
    set l | l in lines && IsResidueRecord(l) :: KeyOf(l)
  }

  /** What extraction yields: the sequence, or the index error raised by
      `line[21]` on the first ATOM record shorter than 22 characters. */
  datatype ExtractResult = Ok(sequence: string) | IndexError(line: string)

  /** The effect of one more line on the extraction so far, given the
      residues seen on the earlier lines: an error stays; a line adds a
      code exactly when it is an ATOM record of a residue not seen yet; an
      ATOM record without a chain identifier column fails. */
  function Step(prev: ExtractResult, seen: set<ResidueKey>, line: string): ExtractResult {
    match prev
    case IndexError(l) => IndexError(l)
    case Ok(s) =>
      if !IsAtomRecord(line) then Ok(s)
      else if |line| <= ChainColumn then IndexError(line)
      else if KeyOf(line) in seen then Ok(s)
      else Ok(s + [ResidueCode(ResName(line))])
  }

  /** The specification of extraction, by the last line. */
  function Extract(lines: seq<string>): ExtractResult {
    if lines == [] then Ok([])
    else Step(Extract(lines[..|lines| - 1]), KeysOf(lines[..|lines| - 1]), lines[|lines| - 1])
  }

  /** `extract_sequence_from_pdb`: one pass over the lines, remembering
      the residues seen so far and appending a code for each new one. */
  method ExtractSequence(lines: seq<string>) returns (r: ExtractResult)
    ensures r == Extract(lines)
  {
    var residuesSeen: set<ResidueKey> := {};
    var sequence: string := [];
    var i := 0;
    while i < |lines|
      invariant 0 <= i <= |lines|
      invariant Extract(lines[..i]) == Ok(sequence)
      invariant residuesSeen == KeysOf(lines[..i])
    {
      var line := lines[i];
      assert lines[..i + 1][..i] == lines[..i];
      KeysOfLast(lines[..i + 1]);
      i := i + 1;
      if !IsAtomRecord(line) {
        continue;
      }
      var resName := ResName(line);
      if |line| <= ChainColumn {
        ErrorPersists(lines[..i], lines[i..]);
        assert lines[..i] + lines[i..] == lines;
        return IndexError(line);
      }
      var key := ResidueKey(ChainId(line), ResSeq(line));
      if key in residuesSeen {
        continue;
      }
      residuesSeen := residuesSeen + {key};
      var aa := ResidueCode(resName);
      sequence := sequence + [aa];
    }
    assert lines[..i] == lines;
    return Ok(sequence);
  }

  /*** Properties of the specification ***/

  lemma KeysOfAppend(a: seq<string>, b: seq<string>)
    ensures KeysOf(a + b) == KeysOf(a) + KeysOf(b)
  {
    forall l | l in a + b
      ensures l in a || l in b
    {
    }
  }

  lemma KeysOfSingle(l: string)
    ensures KeysOf([l]) == if IsResidueRecord(l) then {KeyOf(l)} else {}
  {
    if IsResidueRecord(l) {
      assert l in [l];
    }
  }

  /** The residues seen grow by the key of the last line, if it has one. */
  lemma KeysOfLast(lines: seq<string>)
    requires lines != []
    ensures KeysOf(lines) == KeysOf(lines[..|lines| - 1])
              + (if IsResidueRecord(lines[|lines| - 1]) then {KeyOf(lines[|lines| - 1])} else {})
  {
    var init, last := lines[..|lines| - 1], lines[|lines| - 1];
    assert init + [last] == lines;
    KeysOfAppend(init, [last]);
    KeysOfSingle(last);
  }

  /** Once extraction has failed, further lines do not change the error. */
  lemma {:induction false} ErrorPersists(a: seq<string>, b: seq<string>)
    requires Extract(a).IndexError?
    ensures Extract(a + b) == Extract(a)
  {
    if b != [] {
      var b' := b[..|b| - 1];
      ErrorPersists(a, b');
      assert (a + b)[..|a + b| - 1] == a + b';
    } else {
      assert a + b == a;
    }
  }

  /** Two line sequences that extract alike and have seen the same residues
      stay alike when the same lines follow both. */
  lemma {:induction false} ExtractCongruence(p: seq<string>, q: seq<string>, b: seq<string>)
    requires Extract(p) == Extract(q)
    requires Extract(p).Ok? ==> KeysOf(p) == KeysOf(q)
    ensures Extract(p + b) == Extract(q + b)
    ensures Extract(p + b).Ok? ==> KeysOf(p + b) == KeysOf(q + b)
  {
    if b == [] {
      assert p + b == p && q + b == q;
    } else {
      var b' := b[..|b| - 1];
      ExtractCongruence(p, q, b');
      assert (p + b)[..|p + b| - 1] == p + b';
      assert (q + b)[..|q + b| - 1] == q + b';
      if Extract(p).IndexError? {
        ErrorPersists(p, b);
      } else {
        KeysOfAppend(p, b);
        KeysOfAppend(q, b);
      }
    }
  }

  /** Empty input, or input without ATOM records, yields the empty
      sequence. */
  lemma {:induction false} NoAtomRecords(lines: seq<string>)
    requires forall k :: 0 <= k < |lines| ==> !IsAtomRecord(lines[k])
    ensures Extract(lines) == Ok([])
  {
    if lines != [] {
      NoAtomRecords(lines[..|lines| - 1]);
    }
  }

  /** Extraction fails exactly when some ATOM record is too short to hold a
      chain identifier, and it reports the first such line. */
  lemma {:induction false} ExtractFails(lines: seq<string>)
    ensures Extract(lines).IndexError? <==> exists k :: 0 <= k < |lines| && IsShortAtom(lines[k])
    ensures Extract(lines).IndexError? ==>
              exists k :: 0 <= k < |lines| && lines[k] == Extract(lines).line && IsShortAtom(lines[k])
                          && forall j :: 0 <= j < k ==> !IsShortAtom(lines[j])
  {
    if lines != [] {
      var init, last := lines[..|lines| - 1], lines[|lines| - 1];
      ExtractFails(init);
      assert forall k :: 0 <= k < |init| ==> init[k] == lines[k];
      if Extract(init).IndexError? {
        var k :| 0 <= k < |init| && init[k] == Extract(init).line && IsShortAtom(init[k])
                 && forall j :: 0 <= j < k ==> !IsShortAtom(init[j]);
        assert lines[k] == Extract(lines).line;
      } else if IsShortAtom(last) {
        assert lines[|lines| - 1] == Extract(lines).line;
      } else {
        assert forall k :: 0 <= k < |lines| ==> !IsShortAtom(lines[k]) by {
          forall k | 0 <= k < |lines| ensures !IsShortAtom(lines[k]) {
            if k < |init| { assert lines[k] == init[k]; }
          }
        }
      }
    }
  }

  /** The output holds one code per distinct residue (chain, sequence
      number) among the ATOM records. */
  lemma {:induction false} ExtractLength(lines: seq<string>)
    requires Extract(lines).Ok?
    ensures |Extract(lines).sequence| == |KeysOf(lines)|
  {
    if lines != [] {
      var init, last := lines[..|lines| - 1], lines[|lines| - 1];
      ExtractLength(init);
      KeysOfLast(lines);
      var seen := KeysOf(init);
      if IsResidueRecord(last) {
        var key := KeyOf(last);
        if key in seen {
          assert KeysOf(lines) == seen;
        } else {
          assert |seen + {key}| == |seen| + 1;
        }
      } else {
        assert KeysOf(lines) == seen;
      }
    }
  }

  /** Every output character is a standard one-letter code or the
      unknown-residue marker. */
  lemma {:induction false} ExtractAlphabet(lines: seq<string>)
    requires Extract(lines).Ok?
    ensures forall k :: 0 <= k < |Extract(lines).sequence| ==>
              Extract(lines).sequence[k] in StandardCodes + {UnknownResidue}
  {
    if lines != [] {
      ExtractAlphabet(lines[..|lines| - 1]);
    }
  }

  /** Extraction of a prefix of the lines is a prefix of the extraction of
      all of them. */
  lemma {:induction false} ExtractPrefix(lines: seq<string>, n: nat)
    requires n <= |lines|
    requires Extract(lines).Ok?
    ensures Extract(lines[..n]).Ok?
    ensures Extract(lines[..n]).sequence <= Extract(lines).sequence
  {
    if n < |lines| {
      var init := lines[..|lines| - 1];
      ExtractPrefix(init, n);
      assert init[..n] == lines[..n];
    } else {
      assert lines[..n] == lines;
    }
  }

  /** Line `j` is the first ATOM record of its residue. */
  predicate IsFirstOccurrence(lines: seq<string>, j: nat)
    requires j < |lines|
  {
    IsResidueRecord(lines[j]) && KeyOf(lines[j]) !in KeysOf(lines[..j])
  }

  /** Output order is first-appearance order: the first ATOM record of a
      residue supplies the character whose position is the number of
      distinct residues seen before it. */
  lemma ExtractCharAt(lines: seq<string>, j: nat)
    requires j < |lines|
    requires Extract(lines).Ok?
    requires IsFirstOccurrence(lines, j)
    ensures |KeysOf(lines[..j])| < |Extract(lines).sequence|
    ensures Extract(lines).sequence[|KeysOf(lines[..j])|] == ResidueCode(ResName(lines[j]))
  {
    ExtractPrefix(lines, j + 1);
    ExtractPrefix(lines, j);
    var upTo := lines[..j + 1];
    assert upTo[..j] == lines[..j] && upTo[j] == lines[j];
    ExtractLength(lines[..j]);
    var s := Extract(lines[..j]).sequence;
    assert Extract(upTo) == Ok(s + [ResidueCode(ResName(lines[j]))]);
  }

  /** Lines that are not ATOM records (HETATM, REMARK, TER, ...) have no
      effect: inserting one anywhere leaves the result unchanged. */
  lemma NonAtomIgnored(a: seq<string>, x: string, b: seq<string>)
    requires !IsAtomRecord(x)
    ensures Extract(a + [x] + b) == Extract(a + b)
  {
    KeysOfAppend(a, [x]);
    assert (a + [x])[..|a|] == a;
    assert KeysOf([x]) == {};
    ExtractCongruence(a + [x], a, b);
  }

  /** Repeating the last line changes neither the result nor the residues seen. */
  lemma RepeatLast(lines: seq<string>, l: string)
    requires lines != [] && lines[|lines| - 1] == l
    ensures Extract(lines + [l]) == Extract(lines)
    ensures KeysOf(lines + [l]) == KeysOf(lines)
  {
    KeysOfLast(lines);
    ExtractSnoc(lines, l);
  }

  /** A residue contributes only once: repeating any line in place leaves
      the result unchanged. */
  lemma DuplicateIgnored(before: seq<string>, line: string, after: seq<string>)
    ensures Extract(before + [line] + [line] + after) == Extract(before + [line] + after)
  {
    var once := before + [line];
    RepeatLast(once, line);
    ExtractCongruence(once + [line], once, after);
  }

  /*** Scenarios ***/

  /** The fields of a well-formed ATOM record: residue name, chain
      identifier and a right-justified sequence number of any width, none
      with whitespace at its own ends. */
  lemma RecordFields(line: string, name: string, chain: char, pad: string, num: string)
    requires |line| == 26 && IsAtomRecord(line)
    requires line[17..20] == name && line[21] == chain && line[22..26] == pad + num
    requires forall k :: 0 <= k < |pad| ==> IsSpace(pad[k])
    requires num != [] && !IsSpace(num[0]) && !IsSpace(num[|num| - 1]) && !IsSpace(chain)
    requires !IsSpace(name[0]) && !IsSpace(name[2])
    ensures IsResidueRecord(line)
    ensures ResName(line) == name
    ensures KeyOf(line) == ResidueKey([chain], num)
  {
    StripPadded([], name, []);
    StripPadded([], [chain], []);
    StripPadded(pad, num, []);
    assert name == [] + name + [];
    assert [chain] == [] + [chain] + [];
    assert pad + num == pad + num + [];
  }

  /** A record of chain A with a one-digit sequence number, as in the
      scenarios below. */
  lemma OneDigitRecord(line: string, name: string, digit: char)
    requires |line| == 26 && IsAtomRecord(line)
    requires line[17..20] == name && line[21] == 'A' && line[22..26] == "   " + [digit]
    requires !IsSpace(digit) && !IsSpace(name[0]) && !IsSpace(name[2])
    ensures IsResidueRecord(line)
    ensures ResName(line) == name
    ensures KeyOf(line) == ResidueKey("A", [digit])
  {
    RecordFields(line, name, 'A', "   ", [digit]);
  }

  /** One more line acts through Step. */
  lemma ExtractSnoc(lines: seq<string>, l: string)
    ensures Extract(lines + [l]) == Step(Extract(lines), KeysOf(lines), l)
    ensures KeysOf(lines + [l]) == KeysOf(lines) + (if IsResidueRecord(l) then {KeyOf(l)} else {})
  {
    assert (lines + [l])[..|lines|] == lines;
    KeysOfLast(lines + [l]);
  }

  /** A single ATOM record yields the code of its residue. */
  lemma SingleRecord(l: string)
    requires IsResidueRecord(l)
    ensures Extract([l]) == Ok([ResidueCode(ResName(l))])
    ensures KeysOf([l]) == {KeyOf(l)}
  {
    ExtractSnoc([], l);
    assert [] + [l] == [l];
  }

  /** A second ATOM record of the same residue adds nothing. */
  lemma RepeatedRecord(l1: string, l2: string)
    requires IsResidueRecord(l1) && IsResidueRecord(l2) && KeyOf(l1) == KeyOf(l2)
    ensures Extract([l1, l2]) == Ok([ResidueCode(ResName(l1))])
    ensures KeysOf([l1, l2]) == {KeyOf(l1)}
  {
    SingleRecord(l1);
    ExtractSnoc([l1], l2);
    assert [l1] + [l2] == [l1, l2];
  }

  /** Three ATOM records of which the first two name the same residue. */
  lemma RepeatedThenNew(l1: string, l2: string, l3: string)
    requires IsResidueRecord(l1) && IsResidueRecord(l2) && IsResidueRecord(l3)
    requires KeyOf(l1) == KeyOf(l2) != KeyOf(l3)
    ensures Extract([l1, l2, l3]) == Ok([ResidueCode(ResName(l1)), ResidueCode(ResName(l3))])
  {
    RepeatedRecord(l1, l2);
    ExtractSnoc([l1, l2], l3);
    assert [l1, l2] + [l3] == [l1, l2, l3];
  }

  /** Two atoms of ALA A 1 and one of GLY A 2 give "AG". */
  lemma DuplicateAtomScenario(lines: seq<string>)
    requires lines == ["ATOM      1  N   ALA A   1",
                       "ATOM      2  CA  ALA A   1",
                       "ATOM      3  N   GLY A   2"]
    ensures Extract(lines) == Ok("AG")
  {
    OneDigitRecord(lines[0], "ALA", '1');
    OneDigitRecord(lines[1], "ALA", '1');
    OneDigitRecord(lines[2], "GLY", '2');
    RepeatedThenNew(lines[0], lines[1], lines[2]);
  }

  /** An unknown residue name gives the unknown-residue marker. */
  lemma UnknownResidueScenario(lines: seq<string>)
    requires lines == ["ATOM      1  N   XYZ A   1"]
    ensures Extract(lines) == Ok("X")
  {
    OneDigitRecord(lines[0], "XYZ", '1');
    SingleRecord(lines[0]);
    assert ResidueCode("XYZ") == UnknownResidue;
  }
}
