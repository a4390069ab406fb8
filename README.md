# Windows vc-runtime repodata patch

This project models the part of `generate_patch_instructions.py` that
builds conda-forge's repodata patch instructions for Windows subdirectories.
Every affected record that is patched without an exception ends up
depending on a Visual C runtime (`vc`) package. A dependency is appended
only when the record does not already depend on some `vc…` package.

A record is affected in one of two ways:

- It is the `python` package. It loses `track_features` and, unless it
  already depends on some `vc…` package, gains the `vc X.*` dependency that
  a fixed table gives for its version prefix. A prefix missing from the
  table raises `KeyError`.
- It is any other package, and its `features` string contains `vc`
  somewhere. Every whitespace-separated
  feature token that starts with `vc` is removed, whatever follows the
  prefix. Unless a vc dependency already exists, `vc N.*` is appended, where
  N is the number after `vc` in the first such token. A first vc token whose
  suffix is not a number raises `ValueError` and leaves the record as it was.

The two branches are exclusive: a `python` record's `features` are never
cleaned, so its vc feature tokens are left in place (`PythonRecordPatched`).

A record goes into the instructions when a shallow copy taken before the
edit compares unequal to the edited record. The copy shares the record's
`depends` list, so an appended dependency alone never gets a record
reported.

The project has four modules, one per file:

- `Wrappers` holds `Option` and `Result`.
- `Strings` holds the Python string operations used: `str.split()`,
  `' '.join`, `startswith`, the `in` substring test, `int()` on a decimal
  literal and `'%d'`.
- `PatchSpec` holds the value-level meaning of one record's patch and of
  a whole pass over the package map, with the lemmas about them.
- `GeneratePatchInstructions` holds the imperative model. A `Record`
  class has mutable fields and a separate `DependList` object, so that
  `record.copy()` aliases the list exactly as Python does. Methods edit
  records in place, and a loop runs over the package map. Each method is
  proved against the `PatchSpec` functions.

Exceptions are modelled explicitly as the `Error` datatype:

- `KeyError` for a Python version prefix the table does not have;
- `ValueError` for a vc token whose suffix is not a number;
- `TypeError` for `'vc %d.*' % None`.

An exception that happens after an edit keeps that edit. For example, the
python branch raises `KeyError` only after `track_features` has already
been popped. Each `Step` value therefore carries both the record state and
the outcome.

### Reporting and the branch guard

A record is not reported just because patching changed it. `old_record` is
a shallow copy that shares `depends`, so the copy sees the appended
dependency too. A python record without `track_features` gains a dependency
but is not reported (`AppendedDependencyNotReported`). The exact rule is
`InclusionRule`.

The vc branch is entered on the substring test `'vc' in features`, not on a
per-token test. A record such as `features: "libcvcx"` therefore enters the
branch but has nothing to extract. It then raises `TypeError` unless a vc
dependency is already present (`SubstringOnlyRecord`).

## Model

| member | source | states |
|---|---|---|
| Strings.Split | generate_patch_instructions.py:13 | every token of `str.split()` is non-empty and free of whitespace |
| Strings.SplitJoin | generate_patch_instructions.py:17-20 | splitting the space-joined remaining tokens gives exactly those tokens back, so a rewritten `features` splits into the non-vc tokens |
| Strings.TokenPrefixInSource | generate_patch_instructions.py:51 | a split token starting with `vc` makes the substring test `'vc' in features` true, so every record with a vc token reaches the vc branch |
| Strings.StartsWith | generate_patch_instructions.py:14 | `str.startswith`; characterised by `PrefixContained` and `TokenPrefixInSource` |
| Strings.Contains | generate_patch_instructions.py:51 | the substring test `p in s`; characterised by `ContainsInSuffix`, `PrefixContained` and `TokenPrefixInSource` |
| Strings.Join | generate_patch_instructions.py:20 | `' '.join`; characterised by `SplitJoin` |
| Strings.ParseDecimal | generate_patch_instructions.py:18 | `int()` of a decimal literal; characterised by `ParseFormatDecimal` |
| Strings.FormatDecimal | generate_patch_instructions.py:55 | `'%d'` of a natural number is a non-empty digit string with no leading zero, and 0 formats as `0` |
| Strings.ParseFormatDecimal | generate_patch_instructions.py:55 | parsing `'%d' % n` gives `n` back |
| PatchSpec.VcTokens | generate_patch_instructions.py:14 | a token is in the vc tuple exactly when it is a feature token starting with `vc` |
| PatchSpec.NonVcTokens | generate_patch_instructions.py:17 | a token is kept exactly when it is a feature token not starting with `vc` |
| PatchSpec.NotIn | generate_patch_instructions.py:17 | a token is kept exactly when it is a feature token that is not in the excluded tuple |
| PatchSpec.NotInVcTokens | generate_patch_instructions.py:17 | filtering out members of the vc tuple is the same as filtering by the `vc` prefix |
| PatchSpec.FirstVcToken | generate_patch_instructions.py:14-18 | the first element of the vc tuple is the first feature token with the `vc` prefix |
| PatchSpec.ExtractVcFeature | generate_patch_instructions.py:12-23 | `_extract_and_remove_vc_feature` on record contents; characterised by `ExtractOnlyFeatures`, `ExtractWithoutVcToken` and `ExtractWithVcToken` |
| PatchSpec.ExtractOnlyFeatures | generate_patch_instructions.py:12-23 | the extraction changes only `features`, changes nothing when it returns `None` or raises, and raises only `ValueError` |
| PatchSpec.ExtractWithoutVcToken | generate_patch_instructions.py:13-16 | with no vc token the extraction returns `None` and leaves the record unchanged |
| PatchSpec.ExtractWithVcToken | generate_patch_instructions.py:17-23 | with a first vc token, a non-numeric suffix raises `ValueError` with nothing changed. Otherwise the number comes back, only `features` changes, the key is deleted exactly when every token was a vc token, and otherwise it holds the non-vc tokens in order, joined by single spaces |
| PatchSpec.ExtractLeavesNoVcToken | generate_patch_instructions.py:17-22 | after a successful extraction no feature token starts with `vc` |
| PatchSpec.HasVcDependency | generate_patch_instructions.py:38 | `any(d.startswith('vc') for d in depends)`; characterised by `ExistingVcDependencyKept` and `PatchRecordShape` |
| PatchSpec.VersionPrefix | generate_patch_instructions.py:47 | `version[:3]`: a prefix of the version of length three, or the whole version when it is shorter |
| PatchSpec.PythonVcDependency | generate_patch_instructions.py:39-47 | the lookup succeeds exactly for the seven listed version prefixes, yields a `vc` dependency, and otherwise raises `KeyError` naming `version[:3]` |
| PatchSpec.VcDependency | generate_patch_instructions.py:55 | `'vc %d.*' % n` starts with `vc`, has the shape `vc <digits>.*`, its digits parse back to `n`, and they have no leading zero (`vc 0.*` for zero) |
| PatchSpec.ShallowDiffers | generate_patch_instructions.py:36-57 | `old_record != record` against a shallow copy; characterised by `ShallowDiffersChanged` and `InclusionRule` |
| PatchSpec.ShallowDiffersChanged | generate_patch_instructions.py:36-57 | a reported record did change, and with `depends` unchanged it is reported exactly when it changed |
| PatchSpec.PatchPython | generate_patch_instructions.py:35-50 | the python branch on record contents; characterised by `PythonRecordPatched` and `InclusionRule` |
| PatchSpec.PatchVcFeatured | generate_patch_instructions.py:51-57 | the vc-feature branch on record contents; characterised by `VcFeaturedRecordPatched` and `SubstringOnlyRecord` |
| PatchSpec.PatchRecord | generate_patch_instructions.py:34-57 | one loop iteration on record contents; characterised by `PatchRecordShape`, `InclusionRule` and `PatchRecordIdempotent` |
| PatchSpec.PatchRecordShape | generate_patch_instructions.py:34-57 | in every case the patch keeps name, version and other keys and at most appends one dependency; a successfully patched record of either branch ends with a vc dependency |
| PatchSpec.PythonRecordPatched | generate_patch_instructions.py:35-48 | a python record loses `track_features`. Its `depends` is kept when a vc dependency exists, and otherwise gains exactly the table's entry, or raises `KeyError` with `depends` unchanged. Nothing else changes |
| PatchSpec.VcFeaturedRecordPatched | generate_patch_instructions.py:51-55 | a non-python record with a vc token is extracted as `ExtractWithVcToken` says, then gains `vc <n>.*` unless a vc dependency exists; a bad suffix raises `ValueError` with nothing changed |
| PatchSpec.ExistingVcDependencyKept | generate_patch_instructions.py:38-54 | a record that already depends on a `vc…` package keeps its `depends` list unchanged in either branch |
| PatchSpec.UntouchedRecord | generate_patch_instructions.py:35-51 | a non-python record whose `features` do not contain `vc` is unchanged and not reported |
| PatchSpec.SubstringOnlyRecord | generate_patch_instructions.py:51-57 | a non-python record with `vc` only inside its `features` string is unchanged and unreported when a vc dependency exists, and otherwise raises `TypeError` |
| PatchSpec.InclusionRule | generate_patch_instructions.py:36-57 | after a successful patch, a python record is reported exactly when it had `track_features`, and any other record exactly when it had a vc feature token |
| PatchSpec.AppendedDependencyNotReported | generate_patch_instructions.py:36-50 | a Python 3.6.9 record depending only on `openssl` gains `vc 14.*` but is not reported |
| PatchSpec.SettledRecord | generate_patch_instructions.py:34-57 | a record with a vc dependency and nothing left to strip is unchanged and unreported |
| PatchSpec.PatchRecordIdempotent | generate_patch_instructions.py:34-57 | patching an already patched record changes nothing and reports nothing |
| PatchSpec.VcFeaturedIdempotent | generate_patch_instructions.py:51-57 | the same as `PatchRecordIdempotent`, for records patched in the vc-feature branch |
| PatchSpec.VcFeaturedSettled | generate_patch_instructions.py:51-57 | a successfully patched vc-featured record has a vc dependency and no vc feature token left |
| PatchSpec.PatchedValues | generate_patch_instructions.py:34 | a pass keeps the package map's set of file names |
| PatchSpec.IncludedNames | generate_patch_instructions.py:50-57 | the reported file names are a subset of the package map's names |
| PatchSpec.PassStep | generate_patch_instructions.py:34-57 | patching one more record keeps the invariant that visited names hold patched contents and are reported exactly when their patch says so, while unvisited names are untouched |
| PatchSpec.PassFails | generate_patch_instructions.py:34-57 | a record whose patch raises means not every record succeeds, and leaves every record either untouched or patched |
| PatchSpec.PassDone | generate_patch_instructions.py:34-57 | a pass that visited every name has patched the whole map and reported exactly the included names |
| PatchSpec.PatchPassIdempotent | generate_patch_instructions.py:34-58 | a second pass over a successfully patched map succeeds, changes nothing and reports no record |
| GeneratePatchInstructions.DependList.Append | generate_patch_instructions.py:48 | `list.append` adds exactly one item at the end |
| GeneratePatchInstructions.Record.Copy | generate_patch_instructions.py:36 | `record.copy()` holds the very same `depends` list object |
| GeneratePatchInstructions.SameDict | generate_patch_instructions.py:49-56 | Python's `==` between the shallow copy and the record, with lists compared by their current items; `PatchRecordInPlace` proves it agrees with `ShallowDiffers` |
| GeneratePatchInstructions.ExtractAndRemoveVcFeature | generate_patch_instructions.py:12-23 | the in-place edit and its return value or exception are exactly those of `ExtractVcFeature` |
| GeneratePatchInstructions.PatchRecordInPlace | generate_patch_instructions.py:35-57 | one loop iteration, in place, with the comparison against the shallow copy, ends in the state and the outcome `PatchRecord` gives |
| GeneratePatchInstructions.PatchEachRecord | generate_patch_instructions.py:34-57 | the loop, in any order, succeeds exactly when every record's patch succeeds. On success every record holds its patched contents and the reported names are exactly the included ones, mapped to the edited record objects themselves. On an exception, some record's patch raises that error and every record is untouched or patched |
| GeneratePatchInstructions.PatchRepodata | generate_patch_instructions.py:26-58 | off Windows it returns the empty instructions (version 1, no packages, revoke or remove) and changes nothing. On Windows it behaves as `PatchEachRecord`, and its packages are a subset of the input's names |
| GeneratePatchInstructions.PatchRepodataTwice | generate_patch_instructions.py:26-58 | after a successful run, running again returns the empty instructions and leaves every record as the first run left it |

## Left out

- `main`: fetching repodata over HTTP, parsing and writing JSON files, and creating directories are I/O and are not modelled.
- Dictionary iteration order: the loop visits file names in an arbitrary order. On an exception, which records were already patched depends on that order, so the model states only that each record is untouched or patched.
- Strings.ParseDecimal: accepts only non-empty ASCII digit strings. Python's `int()` also accepts surrounding whitespace, a sign, underscores between digits and non-ASCII decimal digits; the model treats these as `ValueError`. No feature token produced by `split()` contains whitespace.
- Strings.Split: splits only on the six characters space, `\t`, `\n`, `\r`, `\x0b` and `\x0c` (`Strings.IsSpace`). Python's `str.split()` also splits on the ASCII separators `\x1c` to `\x1f` and on Unicode whitespace such as `\x85` and `\xa0`.
- Missing keys and non-string values. In the code, which key can fail depends on the path:
  - `name` is read for every record (line 35); a record without it raises `KeyError`.
  - `depends` is read only on the python branch (line 38) and on the vc branch (line 54); a record on either branch without it raises `KeyError`, and a non-string entry reached by the `startswith` scan can fail there.
  - `version` is read only at line 47, when a python record has no vc dependency; only there can a missing version raise `KeyError` or a non-string one fail.
  - `features` is read only for records other than `python` (line 51); `features: null` raises `TypeError` there.
  - `track_features` is popped whatever its value, and other keys are never read. A non-string `name` just compares unequal to `python`.

  The model gives every record `name`, `version` and `depends` as strings, and `features` as an optional string. It therefore cannot represent a record that lacks one of these keys, nor one with a non-string value, even where the code would pass that record through untouched (for example a non-python record with no `vc` in `features` and no `version` or `depends`).
- Records or `depends` lists shared between two file names: decoded JSON never shares them, and `PatchEachRecord` requires that they are separate.
- Keys other than `name`, `version`, `depends`, `features` and `track_features` are carried as opaque strings, which the patch never reads.
- The `depends` key is never rebound to a new list object, so `Record.depends` is a constant reference whose list contents change.
