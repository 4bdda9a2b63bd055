# globload utilities in Dafny

globload is a Node.js loader. It turns an import specifier with glob wildcards
and a `?glob` query, such as `./plugins/*.js?glob&eager`, into a synthetic
module that maps every matching file to its module. This project models the
helper module `src/utils.ts` of that loader. It proves properties of the model:

- `compareNodeVersions` and its inner `parseVersion`. These compare Node.js
  version strings such as `v22.1` or `v18.20.0`. The loader uses them to pick
  between `URL.parse` and `new URL`. The tests use them to skip the JSON
  import-attribute case on an old Node.js.
- The version gates that call the comparison: the branch of `createURL`, and
  `supportImportAttributes` in the tests.
- The backslash-to-slash rewrite that `normalizePath` applies after
  `path.posix.normalize`.

Modules:

- `JsBuiltins` (js_builtins.dfy) models the JavaScript built-ins that
  `parseVersion` relies on: `startsWith`, `split(".")` with its inverse `join`,
  and `Number` on decimal digit strings.
- `Utils` (utils.dfy) models `src/utils.ts`.
- `LoaderTest` (loader_test.dfy) models the version gate of `tests/loader.test.ts`.

All the modelled code is pure, so the model uses datatypes, functions and
lemmas only.

`parseVersion` works as follows. It strips at most one leading `v` and splits
the rest on `.`. It converts each part with `Number`. It takes parts 0, 1 and 2
with `|| 0`, so a missing part, `NaN` and `0` all count as 0. The comparison
then checks major, minor and patch in that order and returns 1, -1 or 0. The
model proves these properties:

- The result is always one of -1, 0 and 1.
- The result is 0 exactly when the two strings parse to the same version.
- The result follows the lexicographic order on (major, minor, patch), in both
  directions.
- "Not older than" is a total preorder. It is not antisymmetric on strings.
- The leading `v` is optional. Only one `v` is stripped.
- Missing, zero and non-numeric components count as 0, and components after
  the third are ignored.
- Every canonical version string `vX.Y.Z` parses back to exactly its version.

## Model

| member | source | states |
|---|---|---|
| `JsBuiltins.StartsWith` | src/utils.ts:16 | `startsWith(prefix)` holds exactly when the string is at least as long as the prefix and agrees with it at every position of the prefix |
| `JsBuiltins.ToNumber` | src/utils.ts:17 | `Number(part)` is `NaN` exactly when some character is not a decimal digit, and `Number("")` is 0 (other inputs are simplified, see "Left out"); `ToNumberDecimalString` is its round-trip partner |
| `JsBuiltins.Split` | src/utils.ts:17 | `split(".")` never returns an empty array, no part contains the separator, and joining the parts with the separator gives back the input |
| `JsBuiltins.SplitAtSeparator` | src/utils.ts:17 | splitting `a + "." + b` gives the parts of `a` followed by the parts of `b` |
| `JsBuiltins.SplitJoin` | src/utils.ts:17 | `split` undoes `join` when no part contains the separator (the round trip in the other direction from `Split`'s contract) |
| `JsBuiltins.SplitWithoutSeparator` | src/utils.ts:17 | a string without `.` splits into itself alone |
| `JsBuiltins.MapToNumber` | src/utils.ts:17 | `.map(Number)` keeps the length and converts each part at its own index |
| `JsBuiltins.ToNumberDecimalString` | src/utils.ts:17 | `Number(String(n)) == n` for every natural `n` |
| `JsBuiltins.LeadingZeroIgnored` | src/utils.ts:17 | a leading `0` does not change the number a digit string denotes |
| `Utils.StripV` | src/utils.ts:16 | the input is the result with one `v` in front when it starts with `v`, and it is unchanged otherwise |
| `Utils.ComponentOrZero` | src/utils.ts:19-21 | the default `parts[i] or 0`: a non-zero result is the number stored at index `i`, and a number at index `i` is returned as it is; past the end or `NaN` gives 0 |
| `Utils.ParseVersion` | src/utils.ts:15-23 | major, minor and patch are the values of the first three dot-separated parts after one leading `v` is removed, and a missing part counts as 0; its properties are proved by `ParseVersionString`, `VPrefixOptional`, `ExtraComponentIgnored` and `ZeroComponentAppended` |
| `Utils.ParseVersionString` | src/utils.ts:15-23 | `parseVersion` reads the canonical spelling `vX.Y.Z` of every version back as exactly that version |
| `Utils.VPrefixOptional` | src/utils.ts:16 | `"v" + s` and `s` parse alike when `s` does not itself start with `v` |
| `Utils.OnlyOneVStripped` | src/utils.ts:16 | a second `v` is not stripped: `vv1` parses as 0.0.0 while `v1` parses as 1.0.0 |
| `Utils.ExtraComponentIgnored` | src/utils.ts:18-21 | once a string has three components, appending `.t` for any `t` leaves the version unchanged |
| `Utils.ZeroComponentAppended` | src/utils.ts:17-22 | appending a component that is zero or non-numeric leaves the version unchanged, because a missing component also counts as 0 |
| `Utils.EquivalentSpellings` | src/utils.ts:8 | the threshold `v22.1`, and also `22.1.0` and `22.1.x`, all parse as version 22.1.0 |
| `Utils.FourthComponentExample` | src/utils.ts:18-21 | `1.2.3.9` parses as `1.2.3` |
| `Utils.CompareVersions` | src/utils.ts:28-37 | the comparison cascade returns only -1, 0 or 1, and 0 exactly when the versions are equal |
| `Utils.CompareVersionsLexicographic` | src/utils.ts:28-37 | the cascade returns -1 exactly when the first version is lexicographically smaller on (major, minor, patch), and 1 exactly when it is larger |
| `Utils.CompareNodeVersions` | src/utils.ts:14-38 | on strings: the result is -1, 0 or 1; it is 0 exactly when both strings parse to the same version; it is 1 or -1 exactly as the parsed versions compare lexicographically |
| `Utils.CompareReflexive` | src/utils.ts:25-37 | every version string compares equal to itself |
| `Utils.CompareAntisymmetric` | src/utils.ts:28-36 | swapping the arguments negates the result |
| `Utils.CompareTransitive` | src/utils.ts:28-36 | "not older than" (result >= 0) is transitive |
| `Utils.CompareTotalPreorder` | src/utils.ts:14-38 | "not older than" is reflexive, transitive and total, and it is not antisymmetric on strings (`v1` and `1.0.0` compare equal) |
| `Utils.NotAntisymmetricWitness` | src/utils.ts:15-23 | `v1` and `1.0.0` are distinct strings that compare equal |
| `Utils.MajorDecides` | src/utils.ts:28-30 | a differing major version decides the result, whatever the minor and patch versions are (the statement independent of the cascade is `CompareVersionsLexicographic`) |
| `Utils.MinorDecidesOnEqualMajor` | src/utils.ts:31-33 | when the majors are equal, a differing minor version decides the result, whatever the patch versions are (the statement independent of the cascade is `CompareVersionsLexicographic`) |
| `Utils.PatchDecidesOnEqualMajorMinor` | src/utils.ts:34-37 | when major and minor are equal, the patch version decides, and equal patches give 0 |
| `Utils.CompareVersionStrings` | src/utils.ts:14-38 | on canonical spellings the string comparison equals the version comparison, so components compare as numbers and not as text |
| `Utils.AtLeastThreshold` | src/utils.ts:8 | a gate `compareNodeVersions(v, threshold) >= 0` holds exactly when the version of `v` equals the threshold's version or is lexicographically later |
| `Utils.UseUrlParse` | src/utils.ts:8 | `createURL` takes the `URL.parse` branch exactly when the running version is 22.1 or later (major above 22, or major 22 with minor at least 1) |
| `Utils.UrlParseGateExamples` | src/utils.ts:8 | 22.0.9 and 21.7.3 use `new URL`; 22.1.0 and 23.0.0 use `URL.parse` |
| `Utils.ReplaceBackslashes` | src/utils.ts:4 | `replace(/\\/g, "/")` keeps the length, turns every backslash into `/` and leaves every other character in place |
| `Utils.ReplaceChangesOnlyBackslashes` | src/utils.ts:4 | after the rewrite no backslash remains, and a character changes exactly when it was a backslash |
| `Utils.ReplaceIdentity` | src/utils.ts:4 | the rewrite leaves a string unchanged exactly when the string holds no backslash |
| `Utils.ReplaceIdempotent` | src/utils.ts:4 | rewriting twice gives the same as rewriting once |
| `Utils.NormalizePath` | src/utils.ts:3-5 | whatever `path.posix.normalize` returns, the result has the same length, holds a `/` at every position where that had a backslash, keeps every other character, and so holds no backslash |
| `LoaderTest.ParseImportAttributesThreshold` | tests/loader.test.ts:10 | the threshold `v18.20.0` parses as version 18.20.0 |
| `LoaderTest.SupportsImportAttributes` | tests/loader.test.ts:9-10 | the gate holds exactly when the running version is 18.20 or later |
| `LoaderTest.ImportAttributesGateExamples` | tests/loader.test.ts:9-10 | 18.9.0 and 18.19.1 are below the gate; 18.20.0 and 20.0.0 pass it (18.9 is older than 18.20, although `"9" > "2"` as text) |

## Left out

- `JsBuiltins.ToNumber` models JavaScript's `Number` only on strings of decimal digits, and the empty string, which is 0 in both. Every other string is `NaN`, so it counts as 0 in a version. JavaScript also accepts surrounding whitespace (`" 1"` is 1), a sign (`"-1"` is -1, which is truthy and would become a negative component), exponents (`"1e2"`), hexadecimal, binary and octal prefixes (`"0x10"`), and `"Infinity"`. These inputs do not occur in Node.js version strings.
- Numbers in the model are unbounded naturals. JavaScript numbers are doubles, which lose precision above 2^53. A version component that large is not a real Node.js version.
- `createURL` (src/utils.ts:7-12): only its branch condition is modelled, as `Utils.UseUrlParse`. Building the `URL` is done by the host's `URL` and `URL.parse`, and `process.version` is a runtime global. Both are outside the model, so the running version is a parameter.
- `path.posix.normalize` (src/utils.ts:4) is a Node.js library routine and is not modelled. `Utils.NormalizePath` takes it as a function parameter. The model proves nothing about `normalizePath` beyond the backslash rewrite. In particular it does not claim that `normalizePath` is idempotent: a `..` segment hidden behind backslashes appears only after the rewrite, so a second call could normalise further.
- tests/loader.test.ts is modelled only for its `supportImportAttributes` gate. The rest writes fixture files, starts `node` child processes and compares their output with snapshots. That is I/O with no logic of its own.
- The glob-import engine, the resolve and load hooks, and the code generation are not part of this model. Their source files are not among the files modelled here.
