# DICOM file service: a verified model

The service keeps uploaded DICOM files and has three HTTP resources:

- `POST /dicom-image` stores a file under a fresh uuid4 id. A file that is not DICOM is deleted again.
- `GET /dicom-image/<id>` sends the raw file back. When a `dicom_tag` query is given, it returns that header attribute as JSON instead.
- `GET /dicom-image/<id>/<format>` converts the file to PNG. It converts once, caches the result under `files/processed/<id>.png` and then sends it.

This project models that logic in Dafny and proves what it promises. All of it comes from `backend/app.py`.

- `wrappers.dfy`, module `Wrappers`: an `Option` datatype (Python's `None`).
- `py_str.dfy`, module `PyStr`: the Python string operations the handlers apply to request text. These are `strip()`, using Python's whitespace set, `split(',')`, `','.join(...)` and `replace(c, "")`. Each comes with its defining properties: which slice `strip` keeps, and the part count, separator freedom and the round trips between `split` and `join`. Further lemmas show how deleting characters and stripping interact with splitting.
- `regex.dfy`, module `Regex`: the piece of `re.match(..., flags=re.IGNORECASE)` that the identifier pattern needs. A pattern is a sequence of fixed-count character classes and optional characters.
  - `Lang` is the reference meaning, and it backtracks over every optional character.
  - `MatchAt` is a greedy matcher, proved sound against `Lang`. It is also proved complete for patterns where every optional character is followed by a class that cannot hold it.
  - The proofs also show that `re.match` anchors only at the start, and that case is ignored.
- `dicom_service.dfy`, module `DicomService`: the service itself.
  - The path helpers, and the identifier check `check_raw_file_exists`: the shape test first, then the store lookup.
  - The `dicom_tag` parsing.
  - The two GET handlers as pure functions over the store.
  - The store as a class `FileStore`. It holds the `files/raw` and `files/processed` maps, with methods for the upload handler and for the converting handler, which mutates the cache.
  - The store invariant, and the NotFound, RawStored and ProcessedCached transitions of an id.

Three pydicom-backed operations are parameters rather than definitions:
- `isDicom` stands for `pydicom.misc.is_dicom`.
- `transcode` is the decode, rescale and PNG encoding as one function from bytes to bytes.
- `lookup` stands for `dcmread(...).get(tags)` and, when an element is found, `to_json()`.

The fresh id of an upload is an argument of `Post`. It must be uuid4 text that is not yet in the store.

Three facts about the tag check are easy to miss in the code:
- A tag is rejected only when it has fewer than two parts or an empty first or second part, so three or more parts are accepted (`ThirdFieldIsKept`).
- Every parenthesis anywhere in the text is deleted, not only an enclosing pair (`TagPartsAreCleanFields`).
- An empty `dicom_tag` counts as no tag, so the raw file is sent (`DetailGetOutcomes`).

## Model

| member | source | states |
|---|---|---|
| PyStr.Strip | backend/app.py:103-104 | Python's `str.strip()`; its meaning is stated by `StripSpec`, `StripWithoutSpace` and `StripIdempotent` |
| PyStr.RemoveChar | backend/app.py:103 | Python's `str.replace(c, "")`; its meaning is stated by `RemoveCharSpec` and `RemoveCharMultiset` |
| PyStr.Split | backend/app.py:104 | Python's `str.split(sep)`, with at least one part; its meaning is stated by `SplitCount`, `SplitPartsAreSeparatorFree` and `JoinSplit` |
| PyStr.Join | backend/app.py:139 | Python's `sep.join(parts)`; it is the inverse of `Split` by `JoinSplit` and `SplitJoin` |
| PyStr.StripLeftSpec | backend/app.py:103 | left stripping keeps a suffix; everything it drops is whitespace; the result does not start with whitespace; it is empty exactly when the text is all whitespace |
| PyStr.StripRightSpec | backend/app.py:103 | right stripping keeps a prefix; everything it drops is whitespace; the result does not end with whitespace; it is empty exactly when the text is all whitespace |
| PyStr.StripSpec | backend/app.py:103-104 | `strip()` returns a slice of its input with whitespace only on either side and non-whitespace ends; the result is empty exactly when the input is all whitespace |
| PyStr.StripWithoutSpace | backend/app.py:104 | `strip()` leaves text without whitespace unchanged |
| PyStr.StripIdempotent | backend/app.py:103-104 | stripping twice equals stripping once, and stripping introduces no character |
| PyStr.RemoveCharSpec | backend/app.py:103 | `replace(c, "")` keeps exactly the characters other than `c`, and changes nothing when `c` is absent |
| PyStr.RemoveCharMultiset | backend/app.py:103 | `replace(c, "")` deletes every occurrence of `c` and keeps the count of every other character |
| PyStr.RemoveCharAppend | backend/app.py:103 | `replace(c, "")` distributes over concatenation |
| PyStr.SplitPartsAreSeparatorFree | backend/app.py:104 | no part of `split(sep)` contains `sep` |
| PyStr.SplitCount | backend/app.py:104 | `split(sep)` returns one more part than there are separators |
| PyStr.JoinSplit | backend/app.py:104 | joining the parts of a split with the same separator gives the text back |
| PyStr.SplitJoin | backend/app.py:104 | splitting a join of separator-free parts gives the parts back |
| PyStr.SplitPrepend | backend/app.py:104 | a separator-free prefix is glued onto the first part |
| PyStr.SplitAppend | backend/app.py:104 | appending a non-separator character extends only the last part |
| PyStr.SplitStripLeft | backend/app.py:103-104 | leading whitespace removed before splitting leaves the stripped parts unchanged |
| PyStr.SplitStripRight | backend/app.py:103-104 | trailing whitespace removed before splitting leaves the stripped parts unchanged |
| PyStr.StripBeforeSplit | backend/app.py:103-104 | stripping the whole text before splitting does not change the list of stripped parts |
| PyStr.SplitRemoveChar | backend/app.py:103-104 | deleting a non-separator character before splitting is the same as deleting it from each part |
| Regex.Lang | backend/app.py:40 | the reference meaning of a pattern, backtracking over every optional character; `MatchAt` is sound against it and `MatchIffPrefixInLang` ties `Match` to it |
| Regex.Match | backend/app.py:40 | `re.match` anchored at the start; by `MatchIffPrefixInLang` it succeeds exactly when some prefix is in `Lang` |
| Regex.MatchAt | backend/app.py:40 | when the greedy matcher reports an end position, the text from the start to that position is in the pattern's language |
| Regex.MatchAtComplete | backend/app.py:40 | for a deterministic pattern, the greedy matcher finds a match whenever the language holds one |
| Regex.MatchIffPrefixInLang | backend/app.py:40 | `re.match` on a deterministic pattern succeeds exactly when some prefix of the text is in the language |
| Regex.MatchAtIgnoresCase | backend/app.py:40 | matching ASCII-lower-cased text gives the same answer as matching the text itself |
| Regex.MatchIgnoresSuffix | backend/app.py:40 | appending characters after a match never makes `re.match` fail |
| DicomService.RawFilepath | backend/app.py:32-33 | `files/raw/<name>`; injective by `RawFilepathInjective` |
| DicomService.ProcessedFilepath | backend/app.py:35-36 | `files/processed/<name>`; never a raw path by `RawAndProcessedPathsDisjoint` |
| DicomService.RawFilepathInjective | backend/app.py:32-33 | distinct raw ids have distinct paths |
| DicomService.RawAndProcessedPathsDisjoint | backend/app.py:28-36 | no raw path equals a processed path |
| DicomService.IsUuidShaped | backend/app.py:40 | the shape test; characterised by `UuidShapeIsPrefixMatch`, `UuidShapeIgnoresSuffix` and `UuidShapeIgnoresCase` |
| DicomService.CheckRawFileExists | backend/app.py:38-44 | the shape test, then the store lookup; characterised by `CheckRawFileExistsSpec` |
| DicomService.UuidPatternIsDeterministic | backend/app.py:40 | each optional hyphen of the identifier pattern is followed by a hex class, so greedy matching loses nothing |
| DicomService.UuidShapeIsPrefixMatch | backend/app.py:40 | an id passes the shape test exactly when some prefix has the form 8 hex, optional `-`, 4 hex, optional `-`, `4` and 3 hex, optional `-`, one of `89ab` and 3 hex, optional `-`, 12 hex |
| DicomService.UuidShapeIgnoresSuffix | backend/app.py:40 | whatever follows a passing prefix is ignored |
| DicomService.UuidShapeIgnoresCase | backend/app.py:40 | hex letters pass in either case |
| DicomService.CheckRawFileExistsSpec | backend/app.py:38-44 | the check holds exactly when the id passes the shape test and is stored; an id that fails the shape test is reported missing whatever the store holds |
| DicomService.Uuid4TextIsUuidShaped | backend/app.py:64 | every id the upload handler hands out passes the shape test |
| DicomService.TagParts | backend/app.py:103-104 | the parts of a `dicom_tag`; characterised by `TagPartsAreCleanFields` |
| DicomService.ParseDicomTag | backend/app.py:103-106 | the tag check; characterised by `ParseDicomTagAccepts` and `ParseDicomTagParts` |
| DicomService.TagPartsAreCleanFields | backend/app.py:103-104 | the tag parts are the comma-separated fields of the raw text, one for one, each with its parentheses deleted and its outer whitespace stripped |
| DicomService.CleanFieldEmpty | backend/app.py:104-105 | a cleaned field is empty exactly when the field holds only parentheses and whitespace |
| DicomService.ParseDicomTagAccepts | backend/app.py:103-106 | the tag is accepted exactly when the text holds a comma and the first two fields each hold a character that is neither a parenthesis nor whitespace; further fields are not checked |
| DicomService.ParseDicomTagParts | backend/app.py:103-105 | an accepted tag has one part more than it has commas, at least two, each free of parentheses and commas and already stripped |
| DicomService.TwoFieldTagParts | backend/app.py:103-104 | text with one comma gives exactly its two cleaned fields |
| DicomService.ThreeFieldTagParts | backend/app.py:103-104 | text with two commas gives exactly its three cleaned fields |
| DicomService.CleanPlainField | backend/app.py:103-104 | a field without parentheses, commas or whitespace is unchanged by cleaning |
| DicomService.CleanParenthesisedField | backend/app.py:103 | a leading `(` or trailing `)` next to a plain field is removed |
| DicomService.BracketedTagParses | backend/app.py:103-105 | `(g,e)` with plain non-empty fields parses to `[g, e]` |
| DicomService.CleanPaddedField | backend/app.py:103-104 | whitespace around a plain field is stripped away |
| DicomService.PaddedTagParses | backend/app.py:103-105 | `g,e` with whitespace around either plain non-empty field parses to `[g, e]` |
| DicomService.BareTagParses | backend/app.py:103-105 | `g,e` without parentheses parses to `[g, e]` |
| DicomService.ThirdFieldIsKept | backend/app.py:105 | `g,e,x` is accepted and keeps all three parts |
| DicomService.EmptyGroupRejected | backend/app.py:105 | `(,e)` is rejected |
| DicomService.PatientNameTagExample | tests/tests.py:33-36 | the query `(0010,0010)` parses to `["0010", "0010"]` |
| DicomService.PaddedPatientNameTagExample | backend/app.py:103-105 | the query ` 0010 , 0010 ` parses to `["0010", "0010"]` |
| DicomService.DetailGet | backend/app.py:87-119 | the detail handler; characterised by `DetailGetOutcomes` |
| DicomService.DetailGetOutcomes | backend/app.py:87-119 | the detail handler answers 404 exactly for an id that fails the check, whatever the tag; it sends the raw file as `application/dicom` exactly when the id exists and the tag is absent or empty; it answers 400 with the format message exactly when a given tag is malformed or the lookup raises TypeError; otherwise it returns the attribute, with `{}` for an absent element |
| DicomService.MalformedTagIgnoresLookup | backend/app.py:105-108 | a malformed tag is answered before the file is read, so the lookup plays no part |
| DicomService.PatientNameQuery | backend/app.py:100-114 | `?dicom_tag=(0010,0010)` on a stored file returns the element found at group `0010`, element `0010`, or `{}`, when the lookup does not raise TypeError |
| DicomService.PngName | backend/app.py:143 | the cache entry name; characterised by `PngNameRoundTrip` and `PngNameInjective` |
| DicomService.PngNameRoundTrip | backend/app.py:143 | a cache entry name is `<id>.png`, and the id can be recovered from it |
| DicomService.PngNameInjective | backend/app.py:143 | distinct ids have distinct cache entries |
| DicomService.FormatErrorMessageText | backend/app.py:139 | the format error message reads `Requested file format must be one of: png` |
| DicomService.ConvertedResponse | backend/app.py:132-161 | the converted-image handler's response; characterised by `ConvertedResponseOutcomes` |
| DicomService.ConvertedResponseOutcomes | backend/app.py:132-161 | existence is checked before the format: an unknown id gets 404 for every format; a known id with a format other than `png` gets 400 with the allow-list message; a known id with `png` gets `files/processed/<id>.png` sent as `image/png`; the trailing empty body is never returned |
| DicomService.CacheAfter | backend/app.py:141-156 | the processed store after a conversion request; characterised by `ConvertTransition`, `CacheHitDoesNothing` and `CacheIsStable` |
| DicomService.UnknownIdHasNoCacheEntry | backend/app.py:143-144 | in a store that keeps the invariant, an id that was never stored has no cache entry |
| DicomService.UploadTransition | backend/app.py:64-76 | storing a fresh uuid4 id moves it from NotFound to RawStored, keeps the store invariant and leaves every other id's state unchanged |
| DicomService.ConvertTransition | backend/app.py:141-156 | a conversion request keeps the invariant; a `png` request for a stored id leaves it ProcessedCached; any other request leaves the cache as it was; every other id's state is unchanged |
| DicomService.CacheHitDoesNothing | backend/app.py:144 | on a cache hit the processed store is unchanged, whatever the conversion function |
| DicomService.CacheIsStable | backend/app.py:141-159 | a repeated request changes nothing more, and the cached bytes of a stored id are the conversion of its raw file |
| DicomService.IllShapedIdNotFound | backend/app.py:38-41 | an id that fails the shape test gets 404 from both read handlers, whatever the store, tag or format |
| DicomService.FileStore.constructor | backend/app.py:28-30 | both directories start empty, and the empty store keeps the invariant |
| DicomService.FileStore.Post | backend/app.py:52-76 | a DICOM upload returns 201 with the new id, and the raw store gains exactly that entry; any other upload returns 400 with the not-DICOM message, and the raw store is as it was; the processed store never changes; the invariant is kept |
| DicomService.FileStore.GetConverted | backend/app.py:132-161 | the response is that of the converted-image handler; the processed store gains the conversion of the raw file only for a known id, format `png` and no cached entry; the invariant is kept |
| DicomService.UploadThenFetch | backend/app.py:64-119 | after a DICOM upload the raw file is served back under the returned id with its uploaded bytes; after a rejected upload, the id is reported missing |

## Left out

- Flask and flask_restful routing, `reqparse`, `send_file` and the HTTP plumbing are left out. A response is a status with a JSON body or, for a sent file, its path and mimetype. An upload without a `file` field is not modelled. The argument at backend/app.py:59 is not required, so `filedata` is `None`. The handler creates the raw directory at backend/app.py:66, and then `filedata.save` at backend/app.py:68 raises AttributeError, which Flask answers with a 500.
- pydicom is not modelled. `is_dicom`, `dcmread`, `Dataset.get` and `DataElement.to_json` are the parameters `isDicom`, `transcode` and `lookup`. Exceptions other than the TypeError that the handler catches, such as a read failure or a ValueError from `get`, are not modelled. Whether a found element counts as present is the oracle's answer.
- The pixel rescale and PNG encoding are not modelled. They are numpy floating-point arithmetic with `uint8` truncation and an unguarded division by a zero maximum. They are part of the single opaque `transcode`.
- The randomness of `uuid.uuid4()` is not modelled. `FileStore.Post` takes the id as an argument and requires it to be uuid4 text that is not yet stored.
- DicomService.FileStore.Post: does not model a uuid collision with a stored id. The precondition rules it out.
- `mkdir` of the two directories is not modelled. Directories are implicit in the maps.
- Paths are plain strings joined with `/`, and pathlib normalisation is not modelled. The model reads `raw_filepath(f).exists()` as `f in raw`. That is exact only for names without `/`: pathlib reads `<uuid>/.` as the stored file itself. Such a name passes the shape test, because `re.match` anchors only at the start. What keeps it out is the `<string:file_id>` route converter (backend/app.py:165-166), which never passes a `/`, and routing is not modelled.
- DicomService.CacheIsStable: does not model a conversion that fails part way. backend/app.py:154 opens the cache file for writing before the encoder runs. pydicom and the rescale at backend/app.py:146-150 run before that, so their failure leaves no file. If `png.Writer` or `w.write` (backend/app.py:155-156) raises, an empty or partial file is left behind, and the existence test at backend/app.py:144 then serves it as a cache hit. The model's `transcode` is total, so every cached entry is a whole conversion.
- The unlocked check-then-write on the processed cache is not modelled. It is a race between concurrent requests, and the model is sequential.
- Case folding covers ASCII only. Python's Unicode IGNORECASE folds no other character into `[a-f0-9]`, so the shape test gives the same answer.
- `json.loads` of the attribute text is not modelled. The body holds the JSON text that `to_json()` produced, or `{}`.
