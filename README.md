# Install status of the `now` command-line tool

This project models the decision the desktop app's onboarding tutorial makes about its
companion command-line tool `now`: whether it counts as installed. The same model covers the
component state around that decision. The source is the `Binary` React component
(`renderer/components/tutorial/binary.js`). It holds three decision functions and one
component state:

- `installedWithNPM` looks for the first global package named `now`. It answers yes only when
  that entry exists and is not linked. A failed registry query answers no.
- `isOlderThanLatest` compares the latest published version with the one `now -v` reports.
  It answers `true` when the remote version is strictly newer, `false` when it is not, and
  `undefined` when a probe failed.
- `binaryInstalled` is an ordered first-match chain over these answers and two filesystem
  facts (the path exists, the path is a symlink).
- The component's state record starts at `initialState`. `componentDidMount` can only set
  `binaryInstalled`. The window's `show` handler does nothing while an install runs, and
  otherwise resets everything to `initialState` with a fresh verdict. The install button
  starts an install only when the state does not say installed.

Modules:

- `Semver` (`semver.dfy`): versions as parsed `(major, minor, patch)` triples. Precedence follows
  section 11 of Semantic Versioning 2.0.0: the numeric identifiers are compared from left to
  right. The reference definition is a lexicographic order on sequences. The library
  comparison `compare` (-1/0/1) is proved to agree with it.
- `BinaryStatus` (`binary_status.dfy`): every probe is an input value.
  - The registry query is `RegistryFailed` or the package list.
  - The remote lookup throws, returns nothing, or returns a version.
  - The `-v` spawn throws or reports a version.
  - The two filesystem answers are booleans.
  - `Facts` bundles one evaluation's answers. The three decision functions are pure
    functions over them.
- `TutorialBinary` (`tutorial_binary.dfy`): the component's state as a class `Binary` with the
  five state fields. Its methods are the constructor, `ComponentDidMount`, `OnShow` and
  `Click`. Each handler is one atomic step, and its effect is stated through a pure
  transition function (`MountStep`, `ShowStep`, `ClickTriggersInstall`).

`InitialState` is the model of `initialState` (binary.js:14-20). The client method
`TutorialBinary.ShowAfterBinaryDeleted` walks through the situation the comment at
binary.js:114-116 describes. The binary is installed at mount, so the button offers nothing.
The user then deletes it and the window is shown again, and the button offers the install.

Behaviour of the code worth knowing:

- A `now` registry entry counts as an npm install only when it is *not* linked.
- "Latest version unknown ⇒ installed" applies only after the npm, existence and symlink
  checks.
- The verdict is a boolean. "Outdated" and "not installed" both come out as `false`.
- Nothing in the component refuses to offer an install over a symlinked binary. Whether
  `installBinary` refuses is not shown.

## Model

| member | source | states |
|---|---|---|
| Semver.Compare | renderer/components/tutorial/binary.js:50 | `compare(a, b)` is 1 exactly when `b` precedes `a`, -1 exactly when `a` precedes `b`, 0 exactly when they are equal |
| Semver.CompareAntisymmetric | renderer/components/tutorial/binary.js:50 | swapping the arguments of `compare` negates its answer |
| Semver.PrecedenceTotal | renderer/components/tutorial/binary.js:50-56 | for any two versions exactly one of "precedes", "equal", "is preceded by" holds, and no version precedes itself |
| Semver.PrecedenceTransitive | renderer/components/tutorial/binary.js:50-56 | version precedence is transitive |
| Semver.PrecedesFields | renderer/components/tutorial/binary.js:50 | the lexicographic precedence is "major lower, or major equal and minor lower, or both equal and patch lower" |
| BinaryStatus.Find | renderer/components/tutorial/binary.js:69-71 | `find` yields nothing exactly when no package has the name, and otherwise yields the package at the first position with that name |
| BinaryStatus.InstalledWithNPM | renderer/components/tutorial/binary.js:59-78 | true iff the query succeeded and the first `now` entry exists and is not linked; a failed query gives false |
| BinaryStatus.LinkedEntryShadowsLater | renderer/components/tutorial/binary.js:69-75 | a linked first `now` entry gives false whatever entries follow it |
| BinaryStatus.NoEntryNotInstalled | renderer/components/tutorial/binary.js:73-75 | a registry with no `now` entry gives false |
| BinaryStatus.IsOlderThanLatest | renderer/components/tutorial/binary.js:28-57 | undefined exactly when the remote lookup throws, returns nothing, or the `-v` spawn throws; true exactly when local precedes remote; false exactly when remote precedes or equals local |
| BinaryStatus.BinaryInstalled | renderer/components/tutorial/binary.js:80-101 | installed iff npm-installed, or the path exists, is not a symlink and is not known to be older than the latest release |
| BinaryStatus.NpmInstallOverrides | renderer/components/tutorial/binary.js:84-86 | an npm install gives "installed" for every path-existence, symlink and version outcome |
| BinaryStatus.MissingPathNotInstalled | renderer/components/tutorial/binary.js:88-90 | not npm-installed and no file at the path gives "not installed" |
| BinaryStatus.SymlinkNotInstalled | renderer/components/tutorial/binary.js:92-94 | not npm-installed and a symlink at the path gives "not installed", and changing the version probes' outcomes does not change the answer |
| BinaryStatus.UnknownVersionCountsInstalled | renderer/components/tutorial/binary.js:96-100 | for an existing non-symlink file, an undefined outdated check gives "installed" |
| BinaryStatus.InstalledIffUpToDate | renderer/components/tutorial/binary.js:96-100 | for an existing non-symlink file with both versions known, "installed" iff the latest version precedes or equals the local one |
| TutorialBinary.MountStep | renderer/components/tutorial/binary.js:106-112 | mounting sets `binaryInstalled` when the verdict is positive and leaves every other field and a negative verdict alone |
| TutorialBinary.ShowStep | renderer/components/tutorial/binary.js:117-126 | while installing the state is unchanged; otherwise `binaryInstalled` is the fresh verdict, `installing`, `done` and `downloading` are false and `progress` is 0 |
| TutorialBinary.ClickTriggersInstall | renderer/components/tutorial/binary.js:142-148 | a click starts an install exactly when the state does not say installed |
| TutorialBinary.ShowForgetsPriorState | renderer/components/tutorial/binary.js:122-125 | two states with no install running refresh to the same state: nothing displayed before survives a show |
| TutorialBinary.ShowIdempotent | renderer/components/tutorial/binary.js:117-126 | two shows with the same verdict equal one |
| TutorialBinary.ShowThenClick | renderer/components/tutorial/binary.js:142-148 | after a show with no install running, the button triggers an install exactly when the fresh verdict is "not installed" |
| TutorialBinary.Binary.constructor | renderer/components/tutorial/binary.js:23-26 | a new component's state is `initialState` |
| TutorialBinary.Binary.ComponentDidMount | renderer/components/tutorial/binary.js:103-112 | the new state is `MountStep` of the old state and the verdict of the given facts |
| TutorialBinary.Binary.OnShow | renderer/components/tutorial/binary.js:117-126 | the new state is `ShowStep` of the old state and the fresh verdict; while installing, no field changes |
| TutorialBinary.Binary.Click | renderer/components/tutorial/binary.js:142-148 | returns whether the install would be triggered, which is `ClickTriggersInstall` of the current state: exactly when `binaryInstalled` is false |

## Left out

- Every probe is an input value, not performed. These are `execSync(binaryPath + ' -v')`,
  `path-exists`, `path-type`, the `global-packages` registry query, the remote `getURL()`
  lookup, and the Electron window (including the `focus()` call in `componentDidMount`).
- Version strings are not parsed. The `-v` output's trailing newline, an invalid string, and
  a lookup result without a `version` field (which would make `compare` throw outside any
  `try`) are not modelled. Versions are already-parsed triples.
- The model has no "evaluation failed" outcome. In the code, `binaryInstalled()` rejects when
  `compare` throws (line 50) or when a probe outside a `try` throws (lines 60, 81-82, 88, 92).
  At mount, the `show` listener (line 117) is then never registered. At a show, `setState`
  (line 125) is never reached.
- TutorialBinary.Binary.Click: models the `onClick` handler alone. The source renders the button only when neither
  `installing` nor `done` holds (lines 151-223 return other views first). The model lets the
  guard run in any state.
- Semver.Compare: pre-release and build-metadata precedence (the rest of section 11) is not
  modelled, because versions are plain triples.
- `installBinary` (`utils/load-binary`) is not part of this model. Its download, progress
  updates and completion, and the state changes it makes to the component, are not shown.
  So the model claims nothing about progress clamping or monotonicity, or any guard beyond
  the `installing` check of the show handler.
- JSX rendering, styling and the `intro.js` slide are presentation and are left out.
- Asynchrony: each handler runs as one atomic step. Interleavings of `await` points are not
  modelled. An example is a show event arriving while an earlier evaluation is pending.
