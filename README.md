# AppUpdater: a Dafny model of the update check

AppUpdater answers one question for an iOS/macOS app: does the app store
have a newer version than the one in the app's bundle? `checkIfUpdateNeeded`
reads the bundle's short version string and bundle identifier and builds the
store lookup URL. It then fetches the lookup JSON and takes the `version` of
the first result. It parses both version strings with `Version(str:)`,
compares them with `Version.<`, and reports `(Bool, UpdaterError?)` to a
completion callback.

The project has three modules:

- `Wrappers` (`wrappers.dfy`): the `Option` type, standing for Swift's `T?`.
- `Versions` (`versions.dfy`): the `Version` value type.
  - `Components` models `String.components(separatedBy:)`, and `Join` is its inverse.
  - `ParseInt` models Swift's `Int(String)`. It takes an optional sign, then one or more ASCII digits, and the value must fit in the range of a 64-bit `Int`. `IntToString` is a right inverse: `ParseInt(IntToString(n)) == Some(n)`. It is not a left inverse, because `ParseInt` also accepts "+5" and "05" for 5.
  - `ParsedInts` models the `compactMap`.
  - `ParseVersion` models `init?(str:)`.
  - `Less` models the declared `<`. `LexLess` is a lexicographic order, used for comparison.
- `Updater` (`updater.dfy`) holds everything else:
  - `UpdaterError` and its `Reason`.
  - The platform inputs, written as values:
    - the info dictionary (`Info`);
    - whether `URL(string:)` accepts the lookup address (a predicate `urlParses`);
    - the data task's `(data, error)` pair (`Response`);
    - what `JSONSerialization` makes of the body (a function `decode` returning `Threw(description)` or `Parsed(json)`).
  - `CheckIfUpdateNeeded`, which returns the list of observable effects in
    order: the `Request` it issues, if any, and every `Complete` call it makes.

The handler's `do { … } catch { … }` is written out with `throw` made
explicit. `HandlerBody` returns either the completion calls it made, or
`Thrown(description)`. `Handler` turns a thrown error into
`other(description:)`. Because of this, a throwing JSON decoder is reported as
`other` and not as `invalidResponse`. Of the decoder's two failure modes,
only a top-level value that is not a dictionary counts as an invalid response.

The ordering is modelled exactly as declared. `a < b` holds only when base
and major are equal and minor is smaller. It is a strict partial order, but
not a total one: (1,2,3) and (1,3,0) are related in neither direction. So
the check reports no update when the store has a higher base or major
version. `LessIsRestrictedLexLess` states the relationship to the
lexicographic order exactly.

Three behaviours of the code worth noting:

- `Int(String)` accepts a leading "-", so "-1.2.3" parses as (-1, 2, 3). The
  components of a `Version` are therefore 64-bit signed integers, not
  non-negative ones.
- The lookup URL uses `http://`, as `AppUpdater.swift:47` does.
- A transport error is checked before the data (`AppUpdater.swift:54`), so
  it is reported as `other` even when data came with it.

## Model

| member | source | states |
|---|---|---|
| `Versions.Components` | AppUpdater.swift:26 | `components(separatedBy: ".")`: always at least one piece, no piece contains the separator, and joining the pieces gives back the input |
| `Versions.ComponentsOfJoin` | AppUpdater.swift:26 | splitting a string joined from separator-free pieces gives back exactly those pieces (empty pieces included) |
| `Versions.ParseInt` | AppUpdater.swift:26 | `Int(piece)` succeeds only on an optional sign followed by one or more decimal digits. Its value is the digits' decimal value, negated after a "-". It succeeds exactly when that signed value is within the 64-bit range, `Int.min` included |
| `Versions.SignExamples` | AppUpdater.swift:26 | "-05" reads as -5; "+5" and "05" both read as 5 |
| `Versions.IntToStringParses` | AppUpdater.swift:26 | round trip: every 64-bit integer is read back from its decimal text |
| `Versions.ParsedInts` | AppUpdater.swift:26 | `compactMap` never yields more integers than there are pieces, and each one is within the 64-bit range |
| `Versions.ParsedIntsAppend` | AppUpdater.swift:26 | `compactMap` of a concatenation is the concatenation of the two results (order is kept) |
| `Versions.ParsedIntsAllParse` | AppUpdater.swift:26 | when every piece is an integer, each one is kept, in place |
| `Versions.NoIntegerPieces` | AppUpdater.swift:26 | when no piece is an integer, nothing is kept |
| `Versions.ParseVersion` | AppUpdater.swift:25-35 | `Version(str:)` succeeds iff exactly three pieces convert to integers, and then base, major and minor are those three in order, each within the 64-bit range |
| `Versions.FormatVersionParses` | AppUpdater.swift:25-35 | round trip: the text "base.major.minor" of any version with 64-bit components parses back to that version |
| `Versions.IntegerPieceCount` | AppUpdater.swift:28-30 | when every piece is an integer, the parse succeeds iff there are exactly three pieces |
| `Versions.SkipsNonIntegerPiece` | AppUpdater.swift:26-28 | inserting a non-integer piece anywhere among the pieces leaves the parse result unchanged: such pieces are skipped, not rejected |
| `Versions.SingleDigitsParse` | AppUpdater.swift:25-35 | a string of three single digits separated by dots parses to those three digits |
| `Versions.ParsesThreeIntegers` | AppUpdater.swift:25-35 | "1.2.3" parses to (1, 2, 3) |
| `Versions.RejectsWrongCount` | AppUpdater.swift:28-30 | two or four dot-separated digits give no version |
| `Versions.WrongCountExamples` | AppUpdater.swift:28-30 | "1.2" and "1.2.3.4" give no version |
| `Versions.RejectsNonNumeric` | AppUpdater.swift:26-30 | three pieces none of which is an integer give no version |
| `Versions.RejectsEmpty` | AppUpdater.swift:26-30 | "" (a single empty piece) gives no version |
| `Versions.NonNumericExample` | AppUpdater.swift:26-30 | "a.b.c" gives no version |
| `Versions.SkipsNonIntegerExample` | AppUpdater.swift:26-28 | a non-integer piece after the first of three digits is skipped and the three digits are read |
| `Versions.SkipsExamples` | AppUpdater.swift:26-28 | "1.x.2.3" and "1..2.3" both parse to (1, 2, 3) |
| `Versions.Less` | AppUpdater.swift:21-23 | the declared `<`: it holds only between versions with the same base and major, and then it implies the lexicographic order |
| `Versions.LessIsStrictPartialOrder` | AppUpdater.swift:21-23 | `<` is irreflexive, asymmetric and transitive |
| `Versions.LessIsRestrictedLexLess` | AppUpdater.swift:21-23 | `a < b` iff `a` is lexicographically below `b` and both have the same base and major; versions that differ in base or major are incomparable in both directions |
| `Versions.LessIsNotTotal` | AppUpdater.swift:21-23 | there are distinct versions, lexicographically ordered, that `<` relates in neither direction |
| `Versions.LessExamples` | AppUpdater.swift:21-23 | (1,2,3) < (1,2,4) holds; (1,2,3) < (1,3,0) and (1,2,3) < (2,0,0) do not |
| `Updater.Reason` | AppUpdater.swift:8-17 | `reason` is "Invalid responce" (spelled as in the source) for invalidResponse, "Invalid bundle" for invalidBundle, and the stored description for other |
| `Updater.ReasonDistinguishesOnlyFixedKinds` | AppUpdater.swift:8-17 | the two fixed reasons differ, but an `other` error can carry either fixed text |
| `Updater.InfoString` | AppUpdater.swift:44-46 | `info[key] as? String` has a value iff the dictionary exists and holds a string under that key, and the value is that string |
| `Updater.LookupUrl` | AppUpdater.swift:47 | the lookup address is the fixed prefix "http://itunes.apple.com/lookup?bundleId=" followed by the identifier, unchanged |
| `Updater.ReadBundle` | AppUpdater.swift:44-50 | the first guard passes iff both metadata entries are strings and the lookup URL for the identifier is accepted; it then binds the local version and that URL |
| `Updater.RemoteVersion` | AppUpdater.swift:60-64 | a remote version is found iff the top level is a dictionary whose "results" is a non-empty array whose first element is a dictionary with a string "version"; that string is the result |
| `Updater.RemoteVersionOfReply` | AppUpdater.swift:61 | in a lookup reply, only the first result's "version" is read; other fields and other results are ignored |
| `Updater.HandlerBody` | AppUpdater.swift:53-70 | the `do` block throws exactly when the transport reports an error or the decoder throws. It throws that error's description, the transport error taking precedence. Otherwise it returns after exactly one completion call |
| `Updater.Handler` | AppUpdater.swift:52-74 | the data task's handler calls the completion exactly once, and never reports an update together with an error |
| `Updater.CheckIfUpdateNeeded` | AppUpdater.swift:43-76 | every call makes exactly one completion call, and it is the last effect; a request is issued (once, first, to the lookup URL) iff the bundle guard passes |
| `Updater.OutcomeOfBundle` | AppUpdater.swift:43-76 | the one completion is `(false, invalidBundle)` when the first guard fails, and otherwise the one the data task's handler makes |
| `Updater.InvalidBundleOutcome` | AppUpdater.swift:44-50 | missing metadata or an unacceptable URL gives exactly `(false, invalidBundle)` and no request |
| `Updater.InvalidBundleIff` | AppUpdater.swift:44-50 | the reported error is invalidBundle exactly when the bundle guard fails |
| `Updater.OtherOutcome` | AppUpdater.swift:53-73 | a transport error, or a thrown JSON decoding error, gives `(false, other(description))` with that error's description; the transport error wins even when data is present |
| `Updater.InvalidResponseIff` | AppUpdater.swift:55-69 | invalidResponse exactly when the request succeeded with no error but the data is missing, or the decoded value has the wrong shape, or a version does not parse; the flag is then false |
| `Updater.SuccessOutcome` | AppUpdater.swift:66-70 | no error exactly when both versions are read, and then the flag is `current < remote`; a true flag always comes without an error |
| `Updater.ComparedSamples` | AppUpdater.swift:66-70 | with local "1.2.3", a reply with "1.2.4" gives `(true, nil)` and one with "2.0.0" gives `(false, nil)` |
| `Updater.EmptyResultsSample` | AppUpdater.swift:61-64 | a reply whose "results" is empty gives `(false, invalidResponse)` |
| `Updater.OfflineSample` | AppUpdater.swift:71-73 | a connectivity failure gives `(false, other(description))` with the failure's description |
| `Updater.MissingIdentifierSample` | AppUpdater.swift:44-50 | with no identifier in the metadata, the only effect is `(false, invalidBundle)`, and nothing is requested |

## Left out

- `Bundle.main.infoDictionary`: the dictionary is an input (`Info`). Values are either strings or "something else".
- `URL(string:)`: whether the lookup address is well-formed is an input predicate, `urlParses`. The identifier is not escaped, as in the source.
- `URLSession.shared.dataTask` and `task.resume()`: network I/O and asynchrony. The transport's eventual `(data, error)` is an input. The `URLResponse` argument is not used by the source and is not modelled.
- `JSONSerialization.jsonObject`: the decoder is an input function, from the body's bytes to a thrown description or a JSON value. JSON numbers, booleans and null are one `Scalar` case, because the source only tests for dictionaries, arrays and strings.
- `error.localizedDescription`: an uninterpreted string carried by the transport error or the decoding error.
- The thread on which the completion runs: concurrency is not modelled. Effects are listed in the order they happen within one call.
- Swift's `Int` is word-sized. The model assumes a 64-bit platform, so `ParseInt` accepts exactly the values from -2^63 to 2^63-1. On a 32-bit platform the range would be narrower.
- Strings are sequences of characters. Swift's grapheme-cluster view of `String` is not modelled. This matters only for a "." combined with a following combining mark.
- `Version`'s synthesized `==` and the `Comparable` operators derived from `<` (`>`, `<=`, `>=`) are not used by the update check and are not modelled.
