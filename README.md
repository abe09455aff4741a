# School attendance tracker: stores, matcher, registry and roll call

This project models the core of a school attendance system in Dafny. Students are
enrolled in groups and identified by fingerprint or by a WebAuthn credential, and
each attendance is recorded against a student.

The model covers five parts:

- **Fingerprint store** (`FingerprintReader`). The store of enrolled students is kept in
  insertion order. It supports 1:1 verification and 1:N identification: the first
  best match wins, and only a strictly higher score replaces it. The module also
  models the capture retry loop and the rule that turns a matcher score into a
  match flag.
- **WebAuthn credential store** (`WebAuthnHandler`). Each user has a list of
  credentials; re-adding a credential id replaces the old entry. The module also
  models lookup by credential id and the challenge format. A challenge is
  unpadded URL-safe base 64, as in section 5 of RFC 4648.
- **Server route bodies** (`App`), with HTTP taken off. These cover:
  - group creation, with the case-insensitive duplicate check and the
    sequential id;
  - group deletion, allowed only when the group is empty;
  - student enrolment and listing;
  - manual and fingerprint attendance;
  - the statistics;
  - the attendance matrix behind the spreadsheet export.
- **Browser base 64 conversions** (`WebAuthnClient`). Byte buffers are converted
  to and from standard base 64 (`btoa`/`atob`) and URL-safe base 64. The module
  also models the `allowCredentials` list of a verification request.
- **Roll-call screen** (`RollCall`). This is the state of the screen that walks
  through a group one student at a time.

Shared modules:

- `OrderedDict` is a Python `dict`: a map plus the insertion order of its keys.
- `Text` holds the parts of Python's `str` that the server relies on: `strip`,
  `upper`, `{n:03d}`, string order, and the stable `sort`.
- `Base64` holds RFC 4648 encoding and the two decoders the system uses: the
  browser's forgiving `atob`, and CPython's non-strict `a2b_base64`.
- `Wrappers` holds `Option` and `Result`.

External dependencies are parameters:

- The matcher library is a `Comparator` function value. Its result is either a
  return code with a score, or a raise.
- The capture device is an oracle that gives one result per attempt.
- Random bytes and the clock are passed in.
- An error response of a route is an `Err` value, not an HTTP status.

State that the source changes in place is modelled as classes:

- `FingerprintDatabase`, `WebAuthnDatabase` and `GroupRegistry` each hold a
  dict field.
- `RollCall` holds the index of the current student and the set of students
  already marked.

The rest of the model is functions and lemmas.

## Model

| member | source | states |
|---|---|---|
| OrderedDict.Put | backend/fingerprint_reader.py:742-746 | `d[k] = v`: k maps to v, every other key keeps its presence and value, a present key keeps its place, a new key goes last, and the dict stays well formed |
| OrderedDict.Remove | backend/fingerprint_reader.py:825-826 | `del d[k]` on a present key: k is gone, every other key keeps its presence and value, one key fewer is listed, and the dict stays well formed |
| OrderedDict.RemoveKeepsOrder | backend/app.py:231 | `del` keeps the remaining keys in their order, dropping only the deleted key's position |
| OrderedDict.PutTwice | backend/app.py:299-302 | writing a record and then overwriting it at the same key is one write of the second record |
| OrderedDict.SizeIsKeyCount | backend/app.py:525 | `len(d)` is the number of listed keys |
| FingerprintReader.CompareTemplates | backend/fingerprint_reader.py:652-670 | the flag holds exactly when the library is loaded, the call returned success and the score is at least 40; an unloaded library, a failure code or a raise gives `(False, 0)` |
| FingerprintReader.CaptureFingerprint | backend/fingerprint_reader.py:402-422 | no attempt without an opened device or a loaded library; at most `max_retries` attempts (none when it is not positive); the result is the first non-empty attempt, every earlier one failed, and `None` means every attempt failed |
| FingerprintReader.FingerprintDatabase.constructor | backend/fingerprint_reader.py:684-692 | a new database holds no students |
| FingerprintReader.FingerprintDatabase.AddFingerprint | backend/fingerprint_reader.py:733-747 | the record at the id becomes exactly name, template and time, with no group or attendance; other students are untouched; the user list changes only at that id, or gains it at the end |
| FingerprintReader.FingerprintDatabase.DeleteUser | backend/fingerprint_reader.py:815-831 | returns whether the id was present; if it was, only that key is removed; otherwise nothing changes |
| FingerprintReader.FingerprintDatabase.IdentifyFingerprint | backend/fingerprint_reader.py:750-778 | a returned id is a stored key holding the first of the highest-scoring matched templates, with a score of at least the threshold; `None` means no position has that property (nothing matched, the best is below the threshold, or the best id is empty) |
| FingerprintReader.FirstBestUnique | backend/fingerprint_reader.py:772-774 | the strict `>` makes the first best match unique: later ties never win |
| FingerprintReader.FirstBestExists | backend/fingerprint_reader.py:768-774 | as soon as any stored template matches, a first best match exists |
| FingerprintReader.MatchAboveThresholdIdentifies | backend/fingerprint_reader.py:776-777 | if some template matches at or above the threshold and no id is empty, identification names somebody |
| FingerprintReader.FingerprintDatabase.VerifyFingerprint | backend/fingerprint_reader.py:792-802 | an unknown user or an unloaded library gives `(False, 0)`; otherwise `(match and score >= threshold, score)` of the single comparison; a positive answer has a score of at least 40 and of at least the threshold |
| FingerprintReader.IdentifiedVerifies | backend/fingerprint_reader.py:765-802 | the user identification names passes 1:1 verification at the same threshold, with the same score |
| FingerprintReader.FingerprintDatabase.ListUsers | backend/fingerprint_reader.py:804-813 | one summary per stored user, in insertion order, carrying its id, name and registration time |
| WebAuthnHandler.WithoutId | backend/webauthn_handler.py:80-83 | the filter keeps exactly the credentials with another id |
| WebAuthnHandler.WithoutIdKeepsOthers | backend/webauthn_handler.py:80-83 | the filter keeps the credentials of every other id in their order |
| WebAuthnHandler.AddedCredentialIsLastAndOnly | backend/webauthn_handler.py:80-85 | after adding, the new credential is the last element and the only one with its id |
| WebAuthnHandler.AddedCredentialKeepsOthers | backend/webauthn_handler.py:80-85 | after adding, the credentials of every other id are as before, in order |
| WebAuthnHandler.WebAuthnDatabase.constructor | backend/webauthn_handler.py:17-25 | a new database holds no users |
| WebAuthnHandler.WebAuthnDatabase.AddCredential | backend/webauthn_handler.py:51-87 | an unknown user is created with the name, time and an empty list and appended to the order; the user's list becomes the old list without that id plus the new credential; other users are untouched |
| WebAuthnHandler.WebAuthnDatabase.GetUserCredentials | backend/webauthn_handler.py:89-93 | `[]` for an unknown user, otherwise the stored list |
| WebAuthnHandler.WebAuthnDatabase.HasCredentials | backend/webauthn_handler.py:112-117 | true exactly when the user is known and its list is non-empty, that is when `get_user_credentials` is non-empty |
| WebAuthnHandler.WebAuthnDatabase.FindUserByCredentialId | backend/webauthn_handler.py:95-110 | a returned user is the first, in insertion order, holding that credential id; `None` exactly when no user holds it |
| WebAuthnHandler.WebAuthnDatabase.DeleteUser | backend/webauthn_handler.py:119-135 | returns whether the user was present; if it was, only that key is removed; otherwise nothing changes |
| WebAuthnHandler.CreateChallenge | backend/webauthn_handler.py:144-152 | 32 random bytes give 43 characters, all from the URL-safe alphabet and none `=` |
| WebAuthnHandler.VerifyChallenge | backend/webauthn_handler.py:154-168 | accepts exactly when the challenge plus `==` decodes to at least 16 bytes; non-ASCII input is a decoding error and is rejected |
| WebAuthnHandler.CreatedChallengeVerifies | backend/webauthn_handler.py:151-166 | every challenge the server creates passes its own check |
| WebAuthnHandler.ShortChallengeFails | backend/webauthn_handler.py:165-166 | a challenge of fewer than 20 characters is rejected |
| Base64.Btoa | frontend/src/services/webauthn.js:79 | `btoa` fails on a char code above 255, and otherwise gives the standard encoding of the codes |
| Base64.Atob | frontend/src/services/webauthn.js:62 | a successful `atob` yields a binary string (every code below 256) |
| Base64.AtobEncode | frontend/src/services/webauthn.js:62-79 | `atob` inverts `btoa`: the encoding of any bytes decodes to the binary string of those bytes |
| Base64.DecodeSextets | backend/webauthn_handler.py:152-165 | decoding the 6-bit values of an encoding gives back the bytes |
| Base64.A2bData | backend/webauthn_handler.py:165 | CPython's non-strict decoder turns the data characters of any bytes, followed by `==`, into those bytes |
| Base64.PyDecodeUnpadded | backend/webauthn_handler.py:152-165 | `urlsafe_b64decode` of an unpadded URL-safe encoding plus `==` gives the encoded bytes back |
| Base64.UnpaddedUrl | backend/webauthn_handler.py:152 | both `rstrip('=')` and removing every `=` leave exactly the translated data characters of the encoding |
| Base64.Encode | frontend/src/services/webauthn.js:79 | the standard encoding has a length that is a multiple of four, at least the byte count, made of alphabet characters and `=` |
| Text.StripSpec | backend/app.py:144 | `strip()` returns a slice whose removed prefix and suffix are white space, and which neither starts nor ends with white space |
| Text.StripBlank | backend/app.py:147 | the stripped name is empty exactly when the name is all white space |
| Text.StripIdempotent | backend/app.py:144 | stripping twice is stripping once |
| Text.UpperAppend | backend/app.py:157 | `upper()` distributes over concatenation |
| Text.UpperIdempotent | backend/app.py:157 | `upper()` of an upper-cased string changes nothing |
| Text.Pad3 | backend/app.py:153 | `{n:03d}` has at least three digits, exactly three below 1000 |
| Text.Pad3Value | backend/app.py:153 | the padded digits read back as n |
| Text.Pad3Injective | backend/app.py:153 | different numbers give different padded strings |
| Text.LessTransitive | backend/app.py:595 | Python's string order is transitive |
| Text.LessTotal | backend/app.py:595 | Python's string order is total |
| Text.SortBySorted | backend/app.py:263 | `sort(key=…)` gives a sorted permutation of its input |
| Text.SortByStable | backend/app.py:263 | `sort(key=…)` is stable: the elements of each key keep their order |
| App.GroupRegistry.constructor | backend/app.py:47-55 | a new registry holds no groups |
| App.IdsInjective | backend/app.py:153 | the group id and student id formulas are injective in the sequence number |
| App.MembersIn | backend/app.py:223-224 | the group's students are exactly the listed students whose group is the given one, and there are no more of them than listed students |
| App.MembersInOrder | backend/app.py:223-224 | the group's students keep the order of the list, and each appears once when the list has no repeats |
| App.CountInGroupIsCard | backend/app.py:223-224 | the count of a group, and the `total_alumnos` of its statistics, is the number of distinct students whose group it is |
| App.CountInGroupZero | backend/app.py:223-226 | the group count is zero exactly when no student belongs to the group |
| App.FindDuplicate | backend/app.py:156-158 | the loop finds a duplicate exactly when some group's name equals the new name after `upper()` |
| App.NoNameTaken | backend/app.py:156-158 | if no group in order has the name, then no group has it |
| App.CrearGrupo | backend/app.py:136-174 | a missing name, a blank name and a duplicate name are each refused with the store unchanged; otherwise the stripped group is written at `GRP-` plus the padded count plus one, whether or not that id is taken |
| App.EliminarGrupo | backend/app.py:213-236 | an unknown group and a group with students are each refused with the store unchanged (the latter carrying the count); otherwise exactly that group is removed |
| App.RemoveEmptyGroupResolves | backend/app.py:223-231 | removing a group nobody belongs to leaves every student's group registered |
| App.Listing | backend/app.py:252-260 | one row per listed student, in order, with its id, name, time and whether it has a template |
| App.CollectListing | backend/app.py:250-260 | the loop collects the rows of exactly the group's students, in insertion order |
| App.ListarAlumnosGrupo | backend/app.py:241-270 | an unknown group is refused; otherwise the group's rows are sorted by upper-cased name |
| App.ListingSortedAndComplete | backend/app.py:250-263 | the listing is sorted by name, every row is the row of a student of the group, and every student of the group has a row |
| App.RegistrarAlumnoGrupo | backend/app.py:273-310 | an unknown group, a missing name and a blank name are each refused with the store unchanged; otherwise the student id is the group id, `-` and the padded group size plus one; the record written there has the stripped name, an empty template and the group, replacing anything stored there |
| App.EnrolResolves | backend/app.py:299-302 | enrolling a student in a registered group keeps every student's group registered |
| App.WithAttendance | backend/app.py:421-423 | appending an attendance keeps the store well formed and its keys |
| App.RegistrarAsistenciaManual | backend/app.py:399-429 | an unknown student is refused with the store unchanged; otherwise exactly one entry is appended to that student, with the student's name and the instant, and kind `tipo`, or `manual` if none is given |
| App.VerificarAsistencia | backend/app.py:457-509 | a missing or empty template fails; otherwise the template is identified; an unidentified template changes nothing; a student outside the requested non-empty group changes nothing; otherwise exactly one entry without a kind is appended to the identified student |
| App.ObtenerEstadisticas | backend/app.py:519-559 | the per-group statistics cover exactly the registered groups, in their order |
| App.StatsConsistent | backend/app.py:525-558 | students without a template are the total minus those with one, and this is never negative; the totals count students and groups; the per-date counts add up to the dated entries, which are at most the total number of attendances |
| App.TallyTotal | backend/app.py:544-549 | the per-date loop counts every entry with a non-empty date exactly once |
| App.BumpTotal | backend/app.py:549 | one increment on a date raises the sum of the counts by one |
| App.AttendanceAddsOne | backend/app.py:423 | one more attendance, manual or by fingerprint, raises `total_asistencias` by one |
| App.Selected | backend/app.py:569-579 | the export covers exactly the students of a non-empty requested group, or all of them, each with its record, each once, in insertion order |
| App.SortedDates | backend/app.py:586-595 | the dates are strictly ascending, and are exactly the non-empty dates of the entries |
| App.InsertDate | backend/app.py:592 | adding a date to a strictly ascending list keeps it strictly ascending and adds only that date |
| App.RowOf | backend/app.py:649-666 | one cell per date, `*` exactly when the student has an entry on that date, `/` otherwise |
| App.AttendanceMatrix | backend/app.py:583-595 | one row per selected student |
| App.MatrixShape | backend/app.py:583-595 | the dates are exactly those some selected student attended, strictly ascending; the rows are the selected students, sorted by upper-cased name; every row is that student's cells |
| App.GroupIdCollision | backend/app.py:153-164 | once a group is deleted, the next sequential id can be one still in use, and the new group overwrites it |
| App.StudentIdCollision | backend/app.py:294-299 | once a student leaves a group, the next student id can be one still in use, and the new student overwrites it |
| WebAuthnClient.ReplaceAll | frontend/src/services/webauthn.js:87 | a global one-character replace keeps the length, replaces every occurrence and keeps everything else |
| WebAuthnClient.ToStdIsFromUrl | frontend/src/services/webauthn.js:87 | the two replaces of the decoder are the reverse translation of section 5 of RFC 4648 |
| WebAuthnClient.ToUrlIsMapToUrl | frontend/src/services/webauthn.js:100 | the two replaces of the encoder are the translation of section 5 of RFC 4648 |
| WebAuthnClient.ArrayBufferToBase64 | frontend/src/services/webauthn.js:73-80 | the byte-to-char loop builds the binary string of the buffer, and the result is its standard encoding |
| WebAuthnClient.Base64ToArrayBuffer | frontend/src/services/webauthn.js:61-68 | fails exactly when `atob` fails; otherwise a fresh buffer holds one byte per char code |
| WebAuthnClient.BufferRoundTrip | frontend/src/services/webauthn.js:61-80 | decoding a buffer's encoding gives back the buffer's bytes |
| WebAuthnClient.PadCount | frontend/src/services/webauthn.js:89-91 | the padding adds at most three characters and makes the length a multiple of four |
| WebAuthnClient.PadBase64 | frontend/src/services/webauthn.js:89-91 | the loop appends exactly the padding count of `=`; the length becomes a multiple of four and grows by at most three |
| WebAuthnClient.Padded | frontend/src/services/webauthn.js:87-91 | the re-padded text has a length that is a multiple of four, at most three longer than the input |
| WebAuthnClient.Base64UrlToArrayBuffer | frontend/src/services/webauthn.js:85-93 | fails exactly when the re-padded standard text does not decode; otherwise a fresh buffer holds the decoded bytes |
| WebAuthnClient.ArrayBufferToBase64Url | frontend/src/services/webauthn.js:98-101 | the result is the URL-safe text of the buffer's bytes |
| WebAuthnClient.EncodeUrlAlphabet | frontend/src/services/webauthn.js:99-100 | the URL-safe text is the translated data characters: every character is URL-safe, and none is `+`, `/` or `=` |
| WebAuthnClient.PaddedData | frontend/src/services/webauthn.js:87-91 | restoring the padding of the translated data characters gives the standard encoding |
| WebAuthnClient.UrlRoundTripBytes | frontend/src/services/webauthn.js:85-101 | decoding the URL-safe text of any bytes gives those bytes back |
| WebAuthnClient.SomeIdFailsCons | frontend/src/services/webauthn.js:204-207 | a list has an undecodable id exactly when its first id or some later one is undecodable |
| WebAuthnClient.Descriptors | frontend/src/services/webauthn.js:204-207 | the mapping fails exactly when some id does not decode; otherwise it holds one `public-key` descriptor per id, in order, carrying that id's bytes |
| WebAuthnClient.AllowCredentials | frontend/src/services/webauthn.js:203-208 | unset exactly when the list is absent or empty; an error exactly when some id does not decode; otherwise one descriptor per id, in order |
| WebAuthnClient.AllowEncodedIds | frontend/src/services/webauthn.js:98-101 | ids produced by the URL-safe encoder always decode, so the list holds one descriptor per id with that id's bytes |
| RollCall.RollCall.constructor | frontend/src/components/PasarLista.js:5-6 | the screen starts at the first student, with nobody marked |
| RollCall.RollCall.AlumnoActual | frontend/src/components/PasarLista.js:11 | there is no current student exactly when the list is empty; otherwise it is one of the group's students |
| RollCall.RollCall.YaTieneAsistencia | frontend/src/components/PasarLista.js:18 | true exactly when there is a current student and it is marked |
| RollCall.RollCall.AlumnosConAsistencia | frontend/src/components/PasarLista.js:13 | the number of marked students never exceeds the number of students |
| RollCall.IdsBound | frontend/src/components/PasarLista.js:13 | a list has at least as many entries as distinct ids |
| RollCall.RollCall.Siguiente | frontend/src/components/PasarLista.js:82-88 | steps forward only below the last student, so the index stays in range and never decreases; the marked set is unchanged |
| RollCall.RollCall.Anterior | frontend/src/components/PasarLista.js:90-96 | steps back only above the first student, so the index stays in range and never increases; the marked set is unchanged |
| RollCall.RollCall.Press | frontend/src/components/PasarLista.js:25-26 | a press does nothing without a current student; otherwise the handler holds the index of the student shown at the press |
| RollCall.RollCall.VerificarHuella | frontend/src/components/PasarLista.js:25-58 | the student shown at the press is marked, and the timer starts with the press-time index, exactly when the server found that very student; otherwise nothing changes; the current index stays, and the student is shown as marked if the screen did not move |
| RollCall.RollCall.AsistenciaManual | frontend/src/components/PasarLista.js:60-80 | the student shown at the press is marked, and the timer starts with the press-time index, exactly when the dialog was confirmed and the server call succeeded; otherwise nothing changes |
| RollCall.RollCall.Seleccionar | frontend/src/components/PasarLista.js:162-176 | choosing a student in the select makes it the current one and leaves the marks alone |
| RollCall.AnswerAfterNavigation | frontend/src/components/PasarLista.js:35-46 | with the screen moved on while a fingerprint request is pending, the answer marks the student shown at the press, not the one shown now, and the timer holds the press-time index |
| RollCall.RollCall.TimerFires | frontend/src/components/PasarLista.js:44-46 | the timer steps from the index captured when the button was pressed, not from the current one |
| RollCall.StaleTimerMovesBack | frontend/src/components/PasarLista.js:44-46 | with three students, a recognised first student and two presses of "next", the timer moves the screen from index 2 back to index 1 |
| RollCall.FreshTimerKeepsPlace | frontend/src/components/PasarLista.js:82-84 | the same presses, with a step from the current index, leave the screen at index 2 |

## Left out

- Persistence is not modelled: JSON loading and saving, the base 64 of stored templates, and the swallowed write errors. A save is a no-op on the in-memory stores. The HTTP 500 a route returns when `save_grupos` fails is not modelled.
- The matcher library and the capture device are not modelled: the library binding, device enumeration, the message loop of a single capture, and its timeout. Each comparison is a `Comparator` value and each attempt an oracle value.
- The pause between capture attempts is left out, because it is time.
- The steps of `verificar_asistencia` before the capture are left out: the library check, the device count and opening the device. They are device I/O. The model starts from the capture's result.
- Floating point is left out: the capture timeout factor and the progress percentage.
- Spreadsheet rendering is left out: styles, merged cells, widths and temporary files. Only the dates and cells are modelled.
- The Flask layer is left out: routing, JSON bodies, status codes and messages. Errors are `AppError` values.
- Random bytes and the clock are parameters. The separate `datetime.now()` reads of one request are taken as one instant.
- Concurrent requests racing on the shared stores are not modelled. One request runs at a time.
- The WebAuthn browser ceremony, `isAvailable`, error mapping and signature checking are left out. They belong to the browser and to cryptographic libraries.
- The other routes (`registrar_huella_alumno`, `obtener_grupo` and the group list) are left out. So is the `huella_registrada_at` column of the listing, which only that route writes.
- `list_users` and the listing fall back to defaults when a field is missing. The model always has a name and a time, because the modelled writers always set both.
- WebAuthnClient.AllowCredentials: an allowed credential is given by its id string alone; the other fields of the entries are not read.
- Text.UpperChar: covers ASCII and Latin-1 (including `ß` to `SS`); the full Unicode case mapping of Python's `upper()` is not modelled.
- Text.IsPySpace: lists the code points `str.isspace()` accepts below U+3001; no other code point is white space there.
- RollCall.RollCall.VerificarHuella: the server request is an input (`Response`), so the screen's error and message texts and the `capturandoHuella` flag are not modelled. The request is pending between `Press` and the answer; the caller decides which navigation happens in between.
- RollCall.RollCall.TimerFires: the 1.5-second delay is not modelled; the caller decides when the timer fires.
- The other frontend screens and the fetch wrappers are left out. They are rendering and asynchronous glue.

## Findings

| source | as written | input that shows it | evidently intended | confidence | as-written member | corrected member |
|---|---|---|---|---|---|---|
| frontend/src/components/PasarLista.js:44-46 | the auto-advance timer calls the `handleSiguiente` of the render in which the button was pressed, so it sets the index to the index captured then plus one | three students; the first is recognised at index 0; "next" is pressed twice within 1.5 s; the timer then sets the index from 2 back to 1 | advance from the index current when the timer fires, which never moves the screen back | medium, not executed | RollCall.StaleTimerMovesBack | RollCall.FreshTimerKeepsPlace |
