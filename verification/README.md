# passgen core, modelled in Dafny

passgen is a small Go command-line tool that generates passwords. It comes
with a build helper (`build.go`) that compiles the repository's `main`
packages. This project models two parts of it and proves properties about
them:

- **Password generation** (`internal/password/generator.go`). The alphabet is
  the 52 letters, then the ten digits if numbers are asked for, then the 27
  symbols if symbols are asked for. The generator fills `length` positions,
  one random index into the alphabet per position, and returns `""` with the
  error as soon as a draw fails. The secure random source (`crypto/rand.Int`)
  is a parameter `source: nat -> Draw`: the k-th call either yields an index
  or fails. The model assumes only what `rand.Int` promises, namely that a
  successful draw lies in `[0, n)`. The method also returns `used`, the
  number of draws it consumed, so that "no draw is made for length 0" and
  "it stops at the first failure" can be stated.
- **Build helper list processing** (`build.go`):
  - `mergeTargets`, which concatenates two target lists and keeps the first
    target with each `importPath::exeName` key;
  - the line filter of `readBuildFile`, which trims each line, skips blanks
    and `#` comments, and names the executable after the last path element;
  - the parsing, filtering, de-duplication and sorting of the
    `go list -f '{{.Dir}}|{{.Name}}|{{.ImportPath}}'` output in
    `discoverMainPackages`.

Files:

- `results.dfy`: the `Option` and `Result` types.
- `password.dfy`: the alphabet and the generator.
- `gostrings.dfy`: the Go library string operations the code relies on:
  `strings.TrimSpace`, `strings.TrimRight` with one character,
  `strings.Split` with one separator, `filepath.Base` with `/`, and string
  `<`.
- `targets.dfy`: the `target` record, the two string keys, and `Dedup`, the
  "first one with each key wins" pass. It models all three `seen`-map loops:
  the two loops of `mergeTargets` (build.go:153 and build.go:160) and the loop
  of `discoverMainPackages` (build.go:91).
- `sorting.dfy`: ordering by executable name.
- `build.dfy`: the three build.go operations.

Strings are sequences of Unicode code points. On valid UTF-8, Go's bytewise
string order is the same as code-point order, and `TrimSpace` and `Split`
behave the same on code points as on bytes.

The symbol set in generator.go:11 has 27 characters, so the alphabet sizes
are 52, 62, 79 and 89.

## Model

| member | source | states |
|---|---|---|
| Password.Alphabet | internal/password/generator.go:9-22 | the alphabet is the letters, then the digits if `includeNumbers`, then the symbols if `includeSymbols`, in that order; its size is 52, 62, 79 or 89 (never empty); a character is in it exactly when it is in one of the chosen groups |
| Password.GeneratePassword | internal/password/generator.go:15-35 | for `length >= 0`: with no failing draw the password has exactly `length` characters, character k is `alphabet[draw k]`, and the error is absent; otherwise the password is `""` and the error is that of the first failing draw, after which no further draw is made; every character is in the chosen alphabet (among the letters when both flags are off); length 0 gives `""`, no error and no draws |
| Password.GenerationDeterminedByDraws | internal/password/generator.go:26-31 | the password and the error depend only on the first `length` draws: two sources that agree on them give the same result |
| Password.ZeroLengthIgnoresSource | internal/password/generator.go:24-34 | a zero-length request succeeds with `""` whatever the random source would do |
| Password.FirstFailureUnique | internal/password/generator.go:26-30 | the error returned is well defined: there is only one first failing draw |
| Targets.Dedup | build.go:151-159 | the `seen`-map loop, walking the list in order and keeping a target when its key is not yet seen, never yields more targets than it is given; what it keeps is stated by the four lemmas below |
| Targets.DedupFromInput | build.go:153-158 | the loop invents nothing: every kept target is an input target whose key was not already seen |
| Targets.DedupKeys | build.go:151-167 | the kept targets have pairwise distinct keys, and their keys are exactly the input's keys minus those already seen |
| Targets.DedupAppend | build.go:152-167 | running the loop over `a ++ b` is running it over `a`, then over `b` with the keys of `a` already seen; so the two loops of mergeTargets are one pass over the concatenation |
| Targets.DedupKeepsFirst | build.go:155-157 | every kept target is the first input target with its key, whatever keys were seen before |
| Targets.DedupKeepsOrder | build.go:152-167 | kept targets appear in the order of their keys' first occurrences in the input |
| Build.AppendFirsts | build.go:153-159 | the imperative loop with a `seen` set appends exactly what `Dedup` keeps and adds exactly the loop's keys to `seen` |
| Build.MergeTargets | build.go:150-168 | the result is the de-duplicated `a` followed by the targets of `b` whose keys are not in `a`; equally, one de-duplication pass over `a ++ b`; no longer than `a` and `b` together; no repeated `importPath::exeName` key; every element is from `a ++ b`; every key of `a ++ b` occurs in it |
| Build.MergeKeyCollision | build.go:154-158 | two targets with different `(importPath, exeName)` pairs can have the same `importPath::exeName` key, and the merge then drops the second |
| Build.MergeTargetsByPair | build.go:150-168 | merging keyed on the pair itself: no `(importPath, exeName)` pair is repeated, nothing is invented, every pair of `a ++ b` is kept |
| Build.PairMergeKeepsCollidingTargets | build.go:150-168 | the pair-keyed merge keeps both targets of the collision |
| Build.TargetLines | build.go:130-140 | there are never more target lines than lines |
| Build.TargetLinesFromLines | build.go:130-140 | every target line comes from a line that is neither blank nor a `#` comment once trimmed, and every such line yields its trimmed text |
| Build.TargetIndicesSpec | build.go:130-134 | the positions of the target lines are in range, strictly increasing, and a line's position is among them exactly when the line is neither blank nor a `#` comment once trimmed |
| Build.TargetLinesAt | build.go:130-139 | there are as many target lines as target positions, and entry k is the trimmed line at the k-th position |
| Build.TargetLinesIndexed | build.go:130-140 | one target line per non-blank, non-comment line, in file order: a strictly increasing map from entries onto exactly the positions of those lines, entry k being the trimmed line at its position |
| Build.TargetLinesEmpty | build.go:144-146 | there are no target lines exactly when every line is blank or a comment |
| Build.BuildFileTargetNames | build.go:136-139 | a `.build` target has no directory and its import path is the trimmed line; its executable name is "." for a line of slashes only, and otherwise the non-empty, `/`-free last element of the line after trailing slashes are stripped |
| Build.BuildFileTargetsEach | build.go:136-139 | one target per target line, each named after its own line |
| Build.CollectBuildTargets | build.go:128-140 | the scanning loop yields one target per target line, in file order, each built from its trimmed line |
| Build.ReadBuildFile | build.go:121-148 | a scanner error is returned as the error; otherwise the result is "no targets" exactly when no line survives the filter, and on success it is one target per surviving line, in order |
| Build.ListLines | build.go:86 | the trimmed `go list` output splits into at least one line and no line contains a newline |
| Build.ParseListLine | build.go:91-108 | an accepted line is exactly `dir`, `main` and `importPath` joined by vertical bars, with no bar in either field; the executable is named after the working directory when `dir` is the same directory, and after `dir` otherwise |
| Build.ParseListLineAccepts | build.go:95-108 | conversely every line made of `dir`, `main` and `importPath` joined by vertical bars, with bar-free fields, is accepted with that target, so lines are kept exactly when they have three fields and name package `main` |
| Build.AcceptedCandidates | build.go:91-113 | the targets the parsing loop considers are exactly the targets of the accepted lines |
| Build.DiscoverMainPackages | build.go:78-119 | the result is sorted by executable name, has no repeated `dir::importPath` key, and is a permutation of the first-occurrence de-duplication of the accepted lines; every element comes from an accepted line and every accepted line's key is represented |
| Sorting.Insert | build.go:117 | inserting into a list sorted by executable name keeps it sorted and adds exactly that element |
| Sorting.SortByExe | build.go:117 | the sort result is ordered by executable name and is a permutation of its input |
| Sorting.SortKeepsDistinctKeys | build.go:109-117 | sorting after de-duplication keeps the keys distinct |
| GoStrings.TrimSpaceSpec | build.go:131 | `TrimSpace` returns a slice of its input with only white space on each side, neither starting nor ending with white space |
| GoStrings.TrimSpaceEmpty | build.go:92 | a line trims to `""` exactly when it is all white space |
| GoStrings.TrimSpaceIdempotent | build.go:131 | trimming twice is trimming once |
| GoStrings.TrimRightCharSpec | build.go:138 | `TrimRight(line, "/")` removes exactly the trailing run of slashes |
| GoStrings.TrimRightCharEmpty | build.go:138 | the stripped line is empty exactly when the line is all slashes |
| GoStrings.LastSegmentSpec | build.go:104 | the last path element is the longest `/`-free suffix |
| GoStrings.BaseSpec | build.go:104 | `filepath.Base` is never empty: "." for the empty path, "/" for slashes only, otherwise the last element once trailing slashes are removed |
| GoStrings.BaseOfTrimmed | build.go:104 | for a path that is not all slashes, `filepath.Base` is the non-empty last element of the path with trailing slashes removed |
| GoStrings.BaseLastElement | build.go:104 | for a path that is not all slashes, `filepath.Base` is a non-empty, `/`-free suffix of the path with trailing slashes removed, preceded there by a `/` or by nothing |
| GoStrings.Split | build.go:95 | a split has at least one part and no part contains the separator |
| GoStrings.JoinSplit | build.go:95 | joining the parts of a split with the separator gives back the line |
| GoStrings.SplitJoin | build.go:95 | splitting separator-free parts joined by the separator gives back the parts |
| GoStrings.SplitThree | build.go:95-99 | a line that splits into three parts is those parts joined by the separator |
| GoStrings.LessIrreflexive | build.go:117 | string `<` is irreflexive |
| GoStrings.LessAsymmetric | build.go:117 | string `<` is asymmetric |
| GoStrings.LessTransitive | build.go:117 | string `<` is transitive |
| GoStrings.LessTotal | build.go:117 | any two different strings are ordered by `<` one way or the other |

## Left out

- `main.go`, `cmd/` and `internal/version/version.go`: command-line parsing, output and version strings, outside the modelled core.
- The uniformity and secrecy of `crypto/rand`: the random source is a parameter, and only its range promise is assumed.
- Password.GeneratePassword: a negative `length` is excluded by `requires length >= 0`; in Go `make` panics there, and the model does not represent panics.
- Password.GeneratePassword: 64-bit `int` limits and running out of memory for huge lengths are not modelled; integers are unbounded.
- The `used` out-parameter of `Password.GeneratePassword` is an added observation; Go does not return it.
- Running `go list` and its failure (build.go:81-84): the command's combined output is the parameter `out` of `Build.DiscoverMainPackages`.
- `os.Getwd` and the `sameDir` helper (which resolves both paths through the file system): the working directory is the parameter `rootDir` and `sameDir` is a parameter function.
- File I/O in `readBuildFile` (opening the file, the `bufio.Scanner`): the lines the scanner yields and its final error are the parameters of `Build.ReadBuildFile`; scanner-specific errors such as over-long tokens are not modelled.
- Sorting.SortByExe: Go's `sort.Slice` is not stable, so the order among equal executable names is not pinned down; the model sorts by insertion, and `Build.DiscoverMainPackages` only promises a sorted permutation.
- `filepath.Base` with Windows separators and volume names: only `/` is a separator.
- Strings are code-point sequences rather than byte strings; invalid UTF-8 is not modelled.
- The rest of build.go (`main`, building with `go build`, `runCmd`, `fatalf`, the `sameDir` implementation): process and file-system work.
- The `dir::importPath` key of discoverMainPackages (build.go:109) is not injective in general: `("/a", ":c")` and `("/a:", "c")` both give `/a:::c`. A collision needs a `:` inside an import path. Without one, the import path is exactly what follows the last `:` of the key, so the key determines the pair. `go list` never reports an import path containing `:`, so the key is modelled as written and not reported as a finding.

## Findings

| source | as written | input that shows it | evidently intended | confidence | as-written member | corrected member |
|---|---|---|---|---|---|---|
| build.go:154,161 | the merge key is `importPath + "::" + exeName`, which two different pairs can share | targets with `(importPath, exeName)` = `("m", "a::m::a")` and `("m::a", "m::a")` both have the key `m::a::m::a`, so the second is dropped | keep one target per `(importPath, exeName)` pair | low, not executed (import paths rarely contain `::`) | Build.MergeTargets, Build.MergeKeyCollision | Build.MergeTargetsByPair, Build.PairMergeKeepsCollidingTargets |
