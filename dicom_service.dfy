/**
 * The DICOM file service of backend/app.py: the path helpers and the
 * identifier check shared by all handlers, the `dicom_tag` parsing of the
 * detail handler, the request decisions of the two GET handlers, and the
 * file store that the upload handler and the PNG cache change.
 *
 * The filesystem is two maps, `files/raw` and `files/processed`, from file
 * name to bytes. pydicom and the PNG encoder are oracles: `isDicom` for
 * `pydicom.misc.is_dicom`, `transcode` for decode + rescale + PNG encode, and
 * `lookup` for `dcmread(...).get(tags)` followed by `to_json()`.
 */
module DicomService {
  import opened Wrappers
  import opened PyStr
  import opened Regex

  newtype byte = b: int | 0 <= b < 256
  type Bytes = seq<byte>

  // ---------------------------------------------------------------------
  // Paths (BaseDICOMImage)
  // ---------------------------------------------------------------------

  const BaseFileLocation: string := "files"
  const RawFileLocation: string := BaseFileLocation + "/raw"
  const ProcessedFileLocation: string := BaseFileLocation + "/processed"

  function RawFilepath(filename: string): string {
    RawFileLocation + "/" + filename
  }

  function ProcessedFilepath(filename: string): string {
    ProcessedFileLocation + "/" + filename
  }

  /** Distinct raw names live at distinct paths. */
  lemma RawFilepathInjective(a: string, b: string)
    ensures RawFilepath(a) == RawFilepath(b) ==> a == b
  {
    assert RawFilepath(a)[10..] == a && RawFilepath(b)[10..] == b;
  }

  /** A raw path is never a processed path: the two subtrees are disjoint. */
  lemma RawAndProcessedPathsDisjoint(a: string, b: string)
    ensures RawFilepath(a) != ProcessedFilepath(b)
  {
    assert RawFilepath(a)[6] == 'r' && ProcessedFilepath(b)[6] == 'p';
  }

  // ---------------------------------------------------------------------
  // Identifier shape (check_raw_file_exists)
  // ---------------------------------------------------------------------

  const HexDigits: set<char> :=
    {'0', '1', '2', '3', '4', '5', '6', '7', '8', '9', 'a', 'b', 'c', 'd', 'e', 'f'}

  /**
   * The shape of an identifier: hex groups of 8, 4, 4, 4 and 12 digits, each
   * hyphen between them optional, the third group opening with `4` and the
   * fourth with one of `8 9 a b`.
   */
  const UuidPattern: seq<Atom> := [
    Repeat(HexDigits, 8), Optional('-'),
    Repeat(HexDigits, 4), Optional('-'),
    Repeat({'4'}, 1), Repeat(HexDigits, 3), Optional('-'),
    Repeat({'8', '9', 'a', 'b'}, 1), Repeat(HexDigits, 3), Optional('-'),
    Repeat(HexDigits, 12)
  ]

  /** The case-insensitive match of `UuidPattern`, anchored at the start of the name, succeeds. */
  predicate IsUuidShaped(filename: string) {
    Match(UuidPattern, filename)
  }

  /** `check_raw_file_exists`: the shape test first, and only then the store lookup. */
  function CheckRawFileExists(rawNames: set<string>, filename: string): bool {
    if !IsUuidShaped(filename) then false
    else if filename !in rawNames then false
    else true
  }

  /** Each optional hyphen of the pattern is followed by a hex class, which never holds a hyphen. */
  lemma UuidPatternIsDeterministic()
    ensures Deterministic(UuidPattern)
  {
  }

  /**
   * A name passes the shape check exactly when some prefix of it is 8 hex
   * digits, an optional `-`, 4 hex digits, an optional `-`, `4` and 3 hex
   * digits, an optional `-`, one of `8 9 a b` and 3 hex digits, an optional
   * `-`, and 12 hex digits (letters in either case); the rest is ignored.
   */
  lemma UuidShapeIsPrefixMatch(filename: string)
    ensures IsUuidShaped(filename) <==>
            exists k :: 0 <= k <= |filename| && Lang(UuidPattern, filename[..k])
  {
    UuidPatternIsDeterministic();
    MatchIffPrefixInLang(UuidPattern, filename);
  }

  /** Trailing characters after a matching prefix do not make a name fail the shape check. */
  lemma UuidShapeIgnoresSuffix(filename: string, suffix: string)
    requires IsUuidShaped(filename)
    ensures IsUuidShaped(filename + suffix)
  {
    UuidPatternIsDeterministic();
    MatchIgnoresSuffix(UuidPattern, filename, suffix);
  }

  /** Hex letters match in either case. */
  lemma UuidShapeIgnoresCase(filename: string)
    ensures IsUuidShaped(FoldAll(filename)) == IsUuidShaped(filename)
  {
    MatchAtIgnoresCase(UuidPattern, filename, 0);
  }

  /** A name that fails the shape check is reported missing whatever the store holds. */
  lemma CheckRawFileExistsSpec(rawNames: set<string>, filename: string)
    ensures CheckRawFileExists(rawNames, filename) <==> IsUuidShaped(filename) && filename in rawNames
    ensures !IsUuidShaped(filename) ==>
              forall other: set<string> :: CheckRawFileExists(other, filename) == false
  {
  }

  /**
   * The text of `str(uuid.uuid4())`: 32 lower-case hex digits in groups
   * 8-4-4-4-12 joined by `-`, the version nibble `4` and the variant nibble
   * one of `8 9 a b`.
   */
  predicate IsUuid4Text(s: string) {
    && |s| == 36
    && (forall k :: 0 <= k < 36 ==>
          if k == 8 || k == 13 || k == 18 || k == 23 then s[k] == '-' else s[k] in HexDigits)
    && s[14] == '4'
    && s[19] in {'8', '9', 'a', 'b'}
  }

  lemma HexRunOfUuid4Text(s: string, a: nat, b: nat)
    requires IsUuid4Text(s) && a <= b <= 36
    requires !(a <= 8 < b) && !(a <= 13 < b) && !(a <= 18 < b) && !(a <= 23 < b)
    ensures AllIn(s[a..b], HexDigits)
  {
    forall k | 0 <= k < b - a ensures Fold(s[a..b][k]) in HexDigits {
      assert s[a..b][k] == s[a + k];
    }
  }

  lemma SingleCharRun(s: string, i: nat, members: set<char>)
    requires i < |s| && s[i] in members && Fold(s[i]) == s[i]
    ensures AllIn(s[i..i + 1], members)
  {
    assert s[i..i + 1][0] == s[i];
  }

  lemma MatchRepeatStep(pattern: seq<Atom>, s: string, i: nat)
    requires pattern != [] && pattern[0].Repeat?
    requires i + pattern[0].count <= |s| && AllIn(s[i..i + pattern[0].count], pattern[0].members)
    ensures MatchAt(pattern, s, i) == MatchAt(pattern[1..], s, i + pattern[0].count)
  {
  }

  lemma MatchOptionalStep(pattern: seq<Atom>, s: string, i: nat)
    requires pattern != [] && pattern[0].Optional?
    requires i < |s| && Fold(s[i]) == pattern[0].c
    ensures MatchAt(pattern, s, i) == MatchAt(pattern[1..], s, i + 1)
  {
  }

  lemma UuidPatternSuffix(k: nat)
    requires k < |UuidPattern|
    ensures UuidPattern[k..] != [] && UuidPattern[k..][0] == UuidPattern[k]
    ensures UuidPattern[k..][1..] == UuidPattern[k + 1..]
  {
  }

  /** The last group of a uuid4 text, with the hyphen before it, matches the end of the pattern. */
  lemma Uuid4TextFrom23(s: string)
    requires IsUuid4Text(s)
    ensures MatchAt(UuidPattern[9..], s, 23) == Some(36)
  {
    var P := UuidPattern;
    HexRunOfUuid4Text(s, 24, 36);
    UuidPatternSuffix(10);
    MatchRepeatStep(P[10..], s, 24);
    assert P[11..] == [];
    UuidPatternSuffix(9);
    MatchOptionalStep(P[9..], s, 23);
  }

  lemma Uuid4TextFrom19(s: string)
    requires IsUuid4Text(s)
    ensures MatchAt(UuidPattern[7..], s, 19) == Some(36)
  {
    var P := UuidPattern;
    Uuid4TextFrom23(s);
    HexRunOfUuid4Text(s, 20, 23);
    UuidPatternSuffix(8);
    MatchRepeatStep(P[8..], s, 20);
    SingleCharRun(s, 19, {'8', '9', 'a', 'b'});
    UuidPatternSuffix(7);
    MatchRepeatStep(P[7..], s, 19);
  }

  lemma Uuid4TextFrom15(s: string)
    requires IsUuid4Text(s)
    ensures MatchAt(UuidPattern[5..], s, 15) == Some(36)
  {
    var P := UuidPattern;
    Uuid4TextFrom19(s);
    UuidPatternSuffix(6);
    MatchOptionalStep(P[6..], s, 18);
    HexRunOfUuid4Text(s, 15, 18);
    UuidPatternSuffix(5);
    MatchRepeatStep(P[5..], s, 15);
  }

  lemma Uuid4TextFrom13(s: string)
    requires IsUuid4Text(s)
    ensures MatchAt(UuidPattern[3..], s, 13) == Some(36)
  {
    var P := UuidPattern;
    Uuid4TextFrom15(s);
    SingleCharRun(s, 14, {'4'});
    UuidPatternSuffix(4);
    MatchRepeatStep(P[4..], s, 14);
    UuidPatternSuffix(3);
    MatchOptionalStep(P[3..], s, 13);
  }

  lemma Uuid4TextFrom8(s: string)
    requires IsUuid4Text(s)
    ensures MatchAt(UuidPattern[1..], s, 8) == Some(36)
  {
    var P := UuidPattern;
    Uuid4TextFrom13(s);
    HexRunOfUuid4Text(s, 9, 13);
    UuidPatternSuffix(2);
    MatchRepeatStep(P[2..], s, 9);
    UuidPatternSuffix(1);
    MatchOptionalStep(P[1..], s, 8);
  }

  /** Every identifier the upload handler hands out passes the shape check. */
  lemma Uuid4TextIsUuidShaped(s: string)
    requires IsUuid4Text(s)
    ensures IsUuidShaped(s)
  {
    var P := UuidPattern;
    Uuid4TextFrom8(s);
    HexRunOfUuid4Text(s, 0, 8);
    UuidPatternSuffix(0);
    assert P[0..] == P;
    MatchRepeatStep(P, s, 0);
  }

  // ---------------------------------------------------------------------
  // dicom_tag parsing (DICOMImageDetail.get)
  // ---------------------------------------------------------------------

  const TagFormatMessage: string :=
    "The dicom_tag parameter must be in the following format: '(0010,0010)'."

  /** The text with every opening and every closing parenthesis deleted. */
  function RemoveParens(s: string): string {
    RemoveChar(RemoveChar(s, '('), ')')
  }

  /** The parts of a tag: parentheses deleted, outer whitespace stripped, split at commas, each part stripped. */
  function TagParts(rawTag: string): seq<string> {
    StripEach(Split(Strip(RemoveParens(rawTag)), ','))
  }

  /** The parsed tag parts, or None for the 400 answer with `TagFormatMessage`. */
  function ParseDicomTag(rawTag: string): Option<seq<string>> {
    var tags := TagParts(rawTag);
    if |tags| < 2 || tags[0] == "" || tags[1] == "" then None else Some(tags)
  }

  /** A comma-separated field of the raw tag with its parentheses and outer whitespace removed. */
  function CleanField(field: string): string {
    Strip(RemoveParens(field))
  }

  /** The field holds a character that is neither a parenthesis nor whitespace. */
  predicate HasContent(field: string) {
    exists k :: 0 <= k < |field| && field[k] != '(' && field[k] != ')' && !IsSpace(field[k])
  }

  /**
   * Parsing a tag cleans each comma-separated field of the raw text on its
   * own: the parts are the fields of `rawTag.split(',')`, one for one, each
   * without parentheses and outer whitespace.
   */
  lemma {:induction false} TagPartsAreCleanFields(rawTag: string)
    ensures var fields := Split(rawTag, ',');
            var parts := TagParts(rawTag);
            |parts| == |fields| && forall i :: 0 <= i < |fields| ==> parts[i] == CleanField(fields[i])
  {
    var fields := Split(rawTag, ',');
    var once := RemoveChar(rawTag, '(');
    SplitRemoveChar(rawTag, '(', ',');
    SplitRemoveChar(once, ')', ',');
    var cleaned := Split(RemoveParens(rawTag), ',');
    assert |cleaned| == |fields| && forall i :: 0 <= i < |fields| ==> cleaned[i] == RemoveParens(fields[i]);
    StripBeforeSplit(RemoveParens(rawTag), ',');
  }

  /** A cleaned field is empty exactly when the field has no content character. */
  lemma CleanFieldEmpty(field: string)
    ensures CleanField(field) == "" <==> !HasContent(field)
  {
    var once := RemoveChar(field, '(');
    var twice := RemoveChar(once, ')');
    RemoveCharSpec(field, '(');
    RemoveCharSpec(once, ')');
    StripSpec(twice);
    if HasContent(field) {
      var k :| 0 <= k < |field| && field[k] != '(' && field[k] != ')' && !IsSpace(field[k]);
      assert field[k] in twice;
      var j :| 0 <= j < |twice| && twice[j] == field[k];
      assert !AllSpace(twice);
    } else {
      forall j | 0 <= j < |twice| ensures IsSpace(twice[j]) {
        assert twice[j] in field;
        var k :| 0 <= k < |field| && field[k] == twice[j];
      }
    }
  }

  /**
   * The tag is accepted exactly when the raw text holds a comma and both the
   * field before the first comma and the field after it hold a character that
   * is neither a parenthesis nor whitespace. Further fields are not checked.
   */
  lemma ParseDicomTagAccepts(rawTag: string)
    ensures var fields := Split(rawTag, ',');
            && (|fields| >= 2 <==> ',' in rawTag)
            && (ParseDicomTag(rawTag).Some? <==>
                  |fields| >= 2 && HasContent(fields[0]) && HasContent(fields[1]))
  {
    var fields := Split(rawTag, ',');
    TagPartsAreCleanFields(rawTag);
    SplitCount(rawTag, ',');
    assert ',' in rawTag <==> multiset(rawTag)[','] > 0;
    if |fields| >= 2 {
      CleanFieldEmpty(fields[0]);
      CleanFieldEmpty(fields[1]);
    }
  }

  /** An accepted tag yields one part per comma-separated field, each free of parentheses and commas and stripped. */
  lemma ParseDicomTagParts(rawTag: string)
    requires ParseDicomTag(rawTag).Some?
    ensures var tags := ParseDicomTag(rawTag).value;
            |tags| == multiset(rawTag)[','] + 1 && |tags| >= 2
            && forall i :: 0 <= i < |tags| ==>
                 '(' !in tags[i] && ')' !in tags[i] && ',' !in tags[i] && tags[i] == Strip(tags[i])
  {
    var tags := ParseDicomTag(rawTag).value;
    var fields := Split(rawTag, ',');
    TagPartsAreCleanFields(rawTag);
    SplitCount(rawTag, ',');
    SplitPartsAreSeparatorFree(rawTag, ',');
    forall i | 0 <= i < |tags|
      ensures '(' !in tags[i] && ')' !in tags[i] && ',' !in tags[i] && tags[i] == Strip(tags[i])
    {
      var f := fields[i];
      var once := RemoveChar(f, '(');
      var twice := RemoveChar(once, ')');
      RemoveCharSpec(f, '(');
      RemoveCharSpec(once, ')');
      StripSpec(twice);
      StripIdempotent(twice);
      assert tags[i] == Strip(twice);
      assert forall x :: x in tags[i] ==> x in twice;
    }
  }

  /** A tag with one comma parses to its two cleaned fields. */
  lemma TwoFieldTagParts(a: string, b: string)
    requires ',' !in a && ',' !in b
    ensures TagParts(a + "," + b) == [CleanField(a), CleanField(b)]
  {
    SplitJoin([a, b], ',');
    assert Join([a, b], ',') == a + "," + b;
    TagPartsAreCleanFields(a + "," + b);
  }

  /** A tag with two commas parses to its three cleaned fields. */
  lemma ThreeFieldTagParts(a: string, b: string, c: string)
    requires ',' !in a && ',' !in b && ',' !in c
    ensures TagParts(a + "," + b + "," + c) == [CleanField(a), CleanField(b), CleanField(c)]
  {
    SplitJoin([a, b, c], ',');
    assert Join([a, b, c], ',') == a + "," + b + "," + c by {
      assert [a, b, c][1..] == [b, c] && [b, c][1..] == [c];
      assert Join([b, c], ',') == b + "," + c;
    }
    TagPartsAreCleanFields(a + "," + b + "," + c);
  }

  /** A field as the documented format writes it: no parenthesis, comma or whitespace. */
  predicate PlainField(f: string) {
    forall k :: 0 <= k < |f| ==> f[k] != '(' && f[k] != ')' && f[k] != ',' && !IsSpace(f[k])
  }

  lemma CleanPlainField(f: string)
    requires PlainField(f)
    ensures CleanField(f) == f
  {
    RemoveCharSpec(f, '(');
    RemoveCharSpec(f, ')');
    StripWithoutSpace(f);
  }

  /** An opening parenthesis before a plain field, or a closing one after it, is cleaned away. */
  lemma CleanParenthesisedField(f: string)
    requires PlainField(f)
    ensures CleanField("(" + f) == f && CleanField(f + ")") == f
  {
    RemoveCharAppend("(", f, '(');
    RemoveCharAppend("(", f, ')');
    RemoveCharAppend(f, ")", '(');
    RemoveCharAppend(f, ")", ')');
    RemoveCharSpec(f, '(');
    RemoveCharSpec(f, ')');
    assert RemoveChar("(", '(') == "" && RemoveChar(")", '(') == ")";
    assert RemoveChar(")", ')') == "" && RemoveChar("", ')') == "";
    assert RemoveParens("(" + f) == f by {
      assert RemoveChar("(" + f, '(') == "" + f == f;
    }
    assert RemoveParens(f + ")") == f by {
      assert RemoveChar(f + ")", '(') == f + ")";
      assert RemoveChar(f + ")", ')') == f + "" == f;
    }
    StripWithoutSpace(f);
  }

  /**
   * The documented format `(gggg,eeee)` parses to its group and element,
   * whatever those two plain fields are.
   */
  lemma BracketedTagParses(g: string, e: string)
    requires g != [] && e != [] && PlainField(g) && PlainField(e)
    ensures ParseDicomTag("(" + g + "," + e + ")") == Some([g, e])
  {
    assert "(" + g + "," + e + ")" == ("(" + g) + "," + (e + ")");
    TwoFieldTagParts("(" + g, e + ")");
    CleanParenthesisedField(g);
    CleanParenthesisedField(e);
  }

  /** Whitespace around a plain field is stripped away. */
  lemma CleanPaddedField(w: string, f: string, v: string)
    requires AllSpace(w) && AllSpace(v) && PlainField(f)
    ensures CleanField(w + f + v) == f
  {
    RemoveCharAppend(w + f, v, '(');
    RemoveCharAppend(w, f, '(');
    RemoveCharAppend(w + f, v, ')');
    RemoveCharAppend(w, f, ')');
    RemoveCharSpec(w, '(');
    RemoveCharSpec(f, '(');
    RemoveCharSpec(v, '(');
    RemoveCharSpec(w, ')');
    RemoveCharSpec(f, ')');
    RemoveCharSpec(v, ')');
    assert !IsSpace('(') && !IsSpace(')');
    assert RemoveChar(w + f + v, '(') == w + f + v;
    assert RemoveParens(w + f + v) == w + f + v;
    StripSpaceSuffix(w + f, v);
    StripSpacePrefix(w, f);
    StripWithoutSpace(f);
  }

  /** Whitespace padding around either field, as in ` 0010 , 0010 `, does not change the parts. */
  lemma PaddedTagParses(w1: string, g: string, v1: string, w2: string, e: string, v2: string)
    requires g != [] && e != [] && PlainField(g) && PlainField(e)
    requires AllSpace(w1) && AllSpace(v1) && AllSpace(w2) && AllSpace(v2)
    ensures ParseDicomTag(w1 + g + v1 + "," + w2 + e + v2) == Some([g, e])
  {
    var a, b := w1 + g + v1, w2 + e + v2;
    assert w1 + g + v1 + "," + w2 + e + v2 == a + "," + b;
    assert !IsSpace(',');
    assert ',' !in a && ',' !in b;
    TwoFieldTagParts(a, b);
    CleanPaddedField(w1, g, v1);
    CleanPaddedField(w2, e, v2);
  }

  /** The same two fields without the parentheses parse the same way. */
  lemma BareTagParses(g: string, e: string)
    requires g != [] && e != [] && PlainField(g) && PlainField(e)
    ensures ParseDicomTag(g + "," + e) == Some([g, e])
  {
    TwoFieldTagParts(g, e);
    CleanPlainField(g);
    CleanPlainField(e);
  }

  /** A third field is kept, not rejected: only the first two are checked. */
  lemma ThirdFieldIsKept(g: string, e: string, x: string)
    requires g != [] && e != [] && PlainField(g) && PlainField(e) && PlainField(x)
    ensures ParseDicomTag(g + "," + e + "," + x) == Some([g, e, x])
  {
    ThreeFieldTagParts(g, e, x);
    CleanPlainField(g);
    CleanPlainField(e);
    CleanPlainField(x);
  }

  /** An empty group field, as in `(,eeee)`, is rejected. */
  lemma EmptyGroupRejected(e: string)
    ensures ParseDicomTag("(," + e + ")") == None
  {
    var t, rest := "(," + e + ")", e + ")";
    assert t == "(" + ([','] + rest);
    SplitPrepend("(", [','] + rest, ',');
    SplitCons(',', rest, ',');
    var fields := Split(t, ',');
    assert |fields| >= 2 && fields[0] == "(";
    TagPartsAreCleanFields(t);
    assert RemoveChar("(", '(') == "";
  }

  /** The query of the integration test, `(0010,0010)`: the patient-name group and element. */
  lemma PatientNameTagExample()
    ensures ParseDicomTag("(0010,0010)") == Some(["0010", "0010"])
  {
    var f := "0010";
    assert PlainField(f);
    BracketedTagParses(f, f);
    assert "(" + f + "," + f + ")" == "(0010,0010)";
  }

  /** The padded spelling ` 0010 , 0010 ` of the same query parses the same way. */
  lemma PaddedPatientNameTagExample()
    ensures ParseDicomTag(" 0010 , 0010 ") == Some(["0010", "0010"])
  {
    var f, w := "0010", " ";
    assert PlainField(f) && AllSpace(w);
    PaddedTagParses(w, f, w, w, f, w);
    assert w + f + w + "," + w + f + w == " 0010 , 0010 ";
  }

  // ---------------------------------------------------------------------
  // Responses of the handlers
  // ---------------------------------------------------------------------

  /** The JSON bodies the handlers return. */
  datatype Body =
    | Error(message: string)      // {'error': message}
    | FileId(fileId: string)      // {'file_id': fileId}
    | Attribute(json: string)     // {'attribute': json.loads(json)}
    | EmptyObject                 // {}

  /** A JSON body with its status code, or a file sent with its mimetype. */
  datatype Response =
    | Json(status: nat, body: Body)
    | SendFile(path: string, mimetype: string)

  /** What `dataset.get(tags)` followed by `to_json()` gives. */
  datatype AttributeLookup =
    | Element(json: string)       // an element, serialised by `to_json()`
    | NoElement                   // no element under that tag
    | KeyTypeError                // `get` raised TypeError

  const NotFoundMessage: string := "The specified file does not exist"
  const NotDicomMessage: string := "The uploaded file must be a DICOM file"
  const DicomMimetype: string := "application/dicom"
  const AbsentAttribute: string := "{}"

  // ---------------------------------------------------------------------
  // DICOMImageDetail.get
  // ---------------------------------------------------------------------

  /** The query argument is present and non-empty. */
  predicate HasTag(dicomTag: Option<string>) {
    dicomTag.Some? && dicomTag.value != ""
  }

  /**
   * The detail handler over the raw store. `dicomTag` is the query argument
   * (None when absent); `lookup` reads the stored file and looks the parts up.
   */
  function DetailGet(raw: map<string, Bytes>, fileId: string, dicomTag: Option<string>,
                     lookup: (Bytes, seq<string>) -> AttributeLookup): Response
  {
    if !CheckRawFileExists(raw.Keys, fileId) then Json(404, Error(NotFoundMessage))
    else if HasTag(dicomTag) then
      match ParseDicomTag(dicomTag.value)
      case None => Json(400, Error(TagFormatMessage))
      case Some(tags) =>
        match lookup(raw[fileId], tags)
        case Element(json) => Json(200, Attribute(json))
        case NoElement => Json(200, Attribute(AbsentAttribute))
        case KeyTypeError => Json(400, Error(TagFormatMessage))
    else SendFile(RawFilepath(fileId), DicomMimetype)
  }

  /**
   * The detail handler's four outcomes: 404 exactly when the id fails the
   * existence check, whatever the tag; the raw file exactly when it exists
   * and no tag is given; 400 exactly when a given tag is malformed or the
   * lookup raises TypeError; otherwise the attribute, `{}` for an absent one.
   */
  lemma DetailGetOutcomes(raw: map<string, Bytes>, fileId: string, dicomTag: Option<string>,
                          lookup: (Bytes, seq<string>) -> AttributeLookup)
    ensures var r := DetailGet(raw, fileId, dicomTag, lookup);
            var found := IsUuidShaped(fileId) && fileId in raw;
            && (r == Json(404, Error(NotFoundMessage)) <==> !found)
            && (r == SendFile(RawFilepath(fileId), DicomMimetype) <==> found && !HasTag(dicomTag))
            && (r == Json(400, Error(TagFormatMessage)) <==>
                  found && HasTag(dicomTag) &&
                  (ParseDicomTag(dicomTag.value).None? ||
                   lookup(raw[fileId], ParseDicomTag(dicomTag.value).value) == KeyTypeError))
            && (found && HasTag(dicomTag) && ParseDicomTag(dicomTag.value).Some? ==>
                  match lookup(raw[fileId], ParseDicomTag(dicomTag.value).value)
                  case Element(json) => r == Json(200, Attribute(json))
                  case NoElement => r == Json(200, Attribute(AbsentAttribute))
                  case KeyTypeError => r.Json? && r.status == 400)
  {
    CheckRawFileExistsSpec(raw.Keys, fileId);
  }

  /** A malformed tag is answered with 400 before the file is read: the lookup plays no part. */
  lemma MalformedTagIgnoresLookup(raw: map<string, Bytes>, fileId: string, dicomTag: string,
                                  lookup: (Bytes, seq<string>) -> AttributeLookup,
                                  other: (Bytes, seq<string>) -> AttributeLookup)
    requires ParseDicomTag(dicomTag).None?
    ensures DetailGet(raw, fileId, Some(dicomTag), lookup) == DetailGet(raw, fileId, Some(dicomTag), other)
  {
  }

  /** The documented query `(0010,0010)` on a stored file asks the dataset for group `0010`, element `0010`. */
  lemma PatientNameQuery(raw: map<string, Bytes>, fileId: string,
                         lookup: (Bytes, seq<string>) -> AttributeLookup)
    requires CheckRawFileExists(raw.Keys, fileId)
    requires lookup(raw[fileId], ["0010", "0010"]) != KeyTypeError
    ensures DetailGet(raw, fileId, Some("(0010,0010)"), lookup) ==
            Json(200, Attribute(if lookup(raw[fileId], ["0010", "0010"]).Element?
                                then lookup(raw[fileId], ["0010", "0010"]).json
                                else AbsentAttribute))
  {
    PatientNameTagExample();
  }

  // ---------------------------------------------------------------------
  // ConvertedDICOMImage.get
  // ---------------------------------------------------------------------

  const FormatPng: string := "png"
  const AllowedFormats: seq<string> := [FormatPng]
  const FormatErrorMessage: string :=
    "Requested file format must be one of: " + Join(AllowedFormats, ',')
  const PngMimetype: string := "image/" + FormatPng

  /** The name of a file's cache entry: its id, a dot and the format. */
  function PngName(fileId: string): string {
    fileId + "." + FormatPng
  }

  predicate IsPngName(name: string) {
    |name| >= 4 && name[|name| - 4..] == "." + FormatPng
  }

  /** The id a cache entry was converted from. */
  function SourceId(name: string): string
    requires IsPngName(name)
  {
    name[..|name| - 4]
  }

  /** `SourceId` inverts `PngName`: each cache entry belongs to exactly one id. */
  lemma PngNameRoundTrip(fileId: string)
    ensures IsPngName(PngName(fileId)) && SourceId(PngName(fileId)) == fileId
  {
    assert PngName(fileId)[..|fileId|] == fileId;
  }

  lemma PngNameInjective(a: string, b: string)
    ensures PngName(a) == PngName(b) ==> a == b
  {
    PngNameRoundTrip(a);
    PngNameRoundTrip(b);
  }

  /** The allow-list's message names its one format. */
  lemma FormatErrorMessageText()
    ensures FormatErrorMessage == "Requested file format must be one of: png"
  {
  }

  /**
   * The answer of the converted-image handler; it does not depend on the
   * cache, which `CacheAfter` describes. The final `{}` is kept although the
   * allow-list makes it unreachable.
   */
  function ConvertedResponse(rawNames: set<string>, fileId: string, fileFormat: string): Response {
    if !CheckRawFileExists(rawNames, fileId) then Json(404, Error(NotFoundMessage))
    else if fileFormat !in AllowedFormats then Json(400, Error(FormatErrorMessage))
    else if fileFormat == FormatPng then SendFile(ProcessedFilepath(PngName(fileId)), PngMimetype)
    else Json(200, EmptyObject)
  }

  /**
   * Existence is decided before the format: an unknown id is 404 for every
   * format, a known id with a format other than `png` is 400, and a known id
   * with `png` is sent from its cache entry. The empty body is never returned.
   */
  lemma ConvertedResponseOutcomes(rawNames: set<string>, fileId: string, fileFormat: string)
    ensures var r := ConvertedResponse(rawNames, fileId, fileFormat);
            var found := IsUuidShaped(fileId) && fileId in rawNames;
            && (r == Json(404, Error(NotFoundMessage)) <==> !found)
            && (r == Json(400, Error("Requested file format must be one of: png")) <==>
                  found && fileFormat != "png")
            && (r == SendFile("files/processed/" + fileId + ".png", "image/png") <==>
                  found && fileFormat == "png")
            && r != Json(200, EmptyObject)
  {
    CheckRawFileExistsSpec(rawNames, fileId);
    FormatErrorMessageText();
    assert ProcessedFilepath(PngName(fileId)) == "files/processed/" + fileId + ".png";
  }

  /** The processed store after the handler: a missing PNG of a known id is written once. */
  function CacheAfter(raw: map<string, Bytes>, processed: map<string, Bytes>, fileId: string,
                      fileFormat: string, transcode: Bytes -> Bytes): map<string, Bytes>
  {
    if CheckRawFileExists(raw.Keys, fileId) && fileFormat == FormatPng && PngName(fileId) !in processed
    then processed[PngName(fileId) := transcode(raw[fileId])]
    else processed
  }

  // ---------------------------------------------------------------------
  // The store
  // ---------------------------------------------------------------------

  /**
   * What every reachable store satisfies: raw files are named by uuid4
   * text, and each processed file is the PNG entry of a raw file holding
   * that file's conversion.
   */
  predicate StoreInvariant(raw: map<string, Bytes>, processed: map<string, Bytes>, transcode: Bytes -> Bytes) {
    && (forall id :: id in raw ==> IsUuid4Text(id))
    && (forall name :: name in processed ==>
          IsPngName(name) && SourceId(name) in raw && processed[name] == transcode(raw[SourceId(name)]))
  }

  datatype ArtifactState = NotFound | RawStored | ProcessedCached

  /** Where an id stands: unknown, uploaded, or uploaded and converted. */
  function StateOf(raw: map<string, Bytes>, processed: map<string, Bytes>, fileId: string): ArtifactState {
    if fileId !in raw then NotFound
    else if PngName(fileId) !in processed then RawStored
    else ProcessedCached
  }

  /** An unknown id has no cache entry. */
  lemma UnknownIdHasNoCacheEntry(raw: map<string, Bytes>, processed: map<string, Bytes>,
                                 transcode: Bytes -> Bytes, fileId: string)
    requires StoreInvariant(raw, processed, transcode)
    requires fileId !in raw
    ensures PngName(fileId) !in processed
  {
    PngNameRoundTrip(fileId);
  }

  /** A successful upload moves its id from NotFound to RawStored, keeps the invariant and leaves every other id where it was. */
  lemma UploadTransition(raw: map<string, Bytes>, processed: map<string, Bytes>,
                         transcode: Bytes -> Bytes, fileId: string, upload: Bytes)
    requires StoreInvariant(raw, processed, transcode)
    requires IsUuid4Text(fileId) && fileId !in raw
    ensures StateOf(raw, processed, fileId) == NotFound
    ensures StateOf(raw[fileId := upload], processed, fileId) == RawStored
    ensures StoreInvariant(raw[fileId := upload], processed, transcode)
    ensures forall other :: other != fileId ==>
              StateOf(raw[fileId := upload], processed, other) == StateOf(raw, processed, other)
  {
    UnknownIdHasNoCacheEntry(raw, processed, transcode, fileId);
  }

  /**
   * A conversion request keeps the invariant. It moves a stored id to
   * ProcessedCached when it asks for `png`; every other id, and every other
   * request, leaves the states as they were.
   */
  lemma ConvertTransition(raw: map<string, Bytes>, processed: map<string, Bytes>,
                          transcode: Bytes -> Bytes, fileId: string, fileFormat: string)
    requires StoreInvariant(raw, processed, transcode)
    ensures var after := CacheAfter(raw, processed, fileId, fileFormat, transcode);
            && StoreInvariant(raw, after, transcode)
            && (CheckRawFileExists(raw.Keys, fileId) && fileFormat == FormatPng ==>
                  StateOf(raw, after, fileId) == ProcessedCached)
            && (!(CheckRawFileExists(raw.Keys, fileId) && fileFormat == FormatPng) ==> after == processed)
            && (forall other :: other != fileId ==> StateOf(raw, after, other) == StateOf(raw, processed, other))
  {
    PngNameRoundTrip(fileId);
    forall other | other != fileId
      ensures PngName(other) != PngName(fileId)
    {
      PngNameInjective(other, fileId);
    }
  }

  /** On a cache hit nothing is converted and nothing is written: the conversion plays no part. */
  lemma CacheHitDoesNothing(raw: map<string, Bytes>, processed: map<string, Bytes>,
                            fileId: string, fileFormat: string,
                            transcode: Bytes -> Bytes, other: Bytes -> Bytes)
    requires PngName(fileId) in processed
    ensures CacheAfter(raw, processed, fileId, fileFormat, transcode) == processed
    ensures CacheAfter(raw, processed, fileId, fileFormat, other) == processed
  {
  }

  /**
   * Asking again changes nothing, and the bytes sent for a stored id are
   * the conversion of its raw file.
   */
  lemma CacheIsStable(raw: map<string, Bytes>, processed: map<string, Bytes>,
                      transcode: Bytes -> Bytes, fileId: string, fileFormat: string)
    requires StoreInvariant(raw, processed, transcode)
    ensures var after := CacheAfter(raw, processed, fileId, fileFormat, transcode);
            && CacheAfter(raw, after, fileId, fileFormat, transcode) == after
            && (CheckRawFileExists(raw.Keys, fileId) && fileFormat == FormatPng ==>
                  PngName(fileId) in after && after[PngName(fileId)] == transcode(raw[fileId]))
  {
    PngNameRoundTrip(fileId);
  }

  /** Ill-shaped ids are answered with 404 by both read handlers, whatever the store holds. */
  lemma IllShapedIdNotFound(raw: map<string, Bytes>, fileId: string, dicomTag: Option<string>,
                            lookup: (Bytes, seq<string>) -> AttributeLookup, fileFormat: string)
    requires !IsUuidShaped(fileId)
    ensures DetailGet(raw, fileId, dicomTag, lookup) == Json(404, Error(NotFoundMessage))
    ensures ConvertedResponse(raw.Keys, fileId, fileFormat) == Json(404, Error(NotFoundMessage))
  {
  }

  /**
   * The directories `files/raw` and `files/processed`, with the two
   * pydicom-backed oracles the handlers apply to their contents.
   */
  class FileStore {
    const isDicom: Bytes -> bool
    const transcode: Bytes -> Bytes
    var raw: map<string, Bytes>
    var processed: map<string, Bytes>

    ghost predicate Valid()
      reads this
    {
      StoreInvariant(raw, processed, transcode)
    }

    /** Both directories start empty. */
    constructor(isDicom: Bytes -> bool, transcode: Bytes -> Bytes)
      ensures Valid()
      ensures this.isDicom == isDicom && this.transcode == transcode
      ensures raw == map[] && processed == map[]
    {
      this.isDicom := isDicom;
      this.transcode := transcode;
      raw := map[];
      processed := map[];
    }

    /**
     * `DICOMImage.post` with `freshId` as the value of `str(uuid.uuid4())`:
     * the upload is saved under the new id and removed again when it is not
     * DICOM.
     */
    method Post(upload: Bytes, freshId: string) returns (resp: Response)
      requires Valid()
      requires IsUuid4Text(freshId) && freshId !in raw
      modifies this`raw
      ensures Valid()
      ensures isDicom(upload) ==> resp == Json(201, FileId(freshId)) && raw == old(raw)[freshId := upload]
      ensures !isDicom(upload) ==> resp == Json(400, Error(NotDicomMessage)) && raw == old(raw)
      ensures processed == old(processed)
    {
      UploadTransition(raw, processed, transcode, freshId, upload);
      raw := raw[freshId := upload];
      if !isDicom(raw[freshId]) {
        raw := raw - {freshId};
        assert raw == old(raw);
        return Json(400, Error(NotDicomMessage));
      }
      return Json(201, FileId(freshId));
    }

    /** `ConvertedDICOMImage.get`: the response, and the PNG written when it is not yet cached. */
    method GetConverted(fileId: string, fileFormat: string) returns (resp: Response)
      requires Valid()
      modifies this`processed
      ensures Valid()
      ensures resp == ConvertedResponse(raw.Keys, fileId, fileFormat)
      ensures processed == CacheAfter(raw, old(processed), fileId, fileFormat, transcode)
    {
      ConvertTransition(raw, processed, transcode, fileId, fileFormat);
      if !CheckRawFileExists(raw.Keys, fileId) {
        return Json(404, Error(NotFoundMessage));
      }
      if fileFormat !in AllowedFormats {
        return Json(400, Error(FormatErrorMessage));
      }
      if fileFormat == FormatPng {
        var finalImage := PngName(fileId);
        if finalImage !in processed {
          var png := transcode(raw[fileId]);
          processed := processed[finalImage := png];
        }
        return SendFile(ProcessedFilepath(finalImage), PngMimetype);
      }
      return Json(200, EmptyObject);
    }
  }

  /**
   * Uploading and then fetching: a DICOM upload is served back from its raw
   * path under the id it was given; a rejected upload leaves an id that
   * every read handler reports missing.
   */
  method UploadThenFetch(store: FileStore, upload: Bytes, freshId: string,
                         lookup: (Bytes, seq<string>) -> AttributeLookup)
    returns (posted: Response, fetched: Response)
    requires store.Valid()
    requires IsUuid4Text(freshId) && freshId !in store.raw
    modifies store`raw
    ensures store.Valid() && store.processed == old(store.processed)
    ensures store.isDicom(upload) ==>
              posted == Json(201, FileId(freshId)) && freshId in store.raw && store.raw[freshId] == upload &&
              fetched == SendFile(RawFilepath(freshId), DicomMimetype)
    ensures !store.isDicom(upload) ==>
              posted == Json(400, Error(NotDicomMessage)) && fetched == Json(404, Error(NotFoundMessage))
  {
    posted := store.Post(upload, freshId);
    fetched := DetailGet(store.raw, freshId, None, lookup);
    Uuid4TextIsUuidShaped(freshId);
  }
}
