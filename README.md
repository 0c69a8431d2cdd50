# nu_plugin_sdkman — a verified model of the version store

nu_plugin_sdkman is a Nushell plugin that manages SDK versions the way SDKMAN
does. It keeps versions under `root/candidates/<candidate>/<version>`. A
`current` marker beside them says which version is active. On Unix the marker
is a symlink to the version directory. On Windows it is a directory that holds
a `.version` file. This project models, in Dafny, the store and the commands
that act on it, and proves what each one does to the store.

The model is laid out in modules that follow the crate's files:

- `Fs` — `std::fs` as a map from path (a sequence of names) to `Dir`,
  `File(content)` or `Link(target)`. It has link following (bounded by 40
  hops), `exists`/`is_dir`/`read_dir`/`read_link`/`read_to_string`, and one
  pure step function per mutation (`create_dir_all`, `remove_dir_all`,
  `remove_file`, `symlink`, `write`, `copy`, `rename`). The `FileSystem`
  class wraps the tree; its methods change it through the step functions.
- `Store` — `src/core/env.rs`: the platform table, the path layout, the
  queries `is_installed`, `get_installed_versions` and `get_current_version`,
  and the marker writers `set_current_version` and `set_local_current_version`.
- `Sdkmanrc`, `EnvCommand` — the `.sdkmanrc` parser and `env
  init/install/load/clear` from `src/commands/env.rs`.
- `Api` — the text handling of `src/core/api.rs`: the candidate list,
  `validate_candidate`, the version list with vendor extraction,
  `get_default_version` and the download URL. HTTP is a function parameter.
- `Archive` — `src/utils/archive.rs`: extension dispatch, the zip entry loop
  and the tar.gz contract. Archive decoding is a parameter.
- `Install`, `InstallCommand`, `Upgrade` — `src/core/install.rs` (scratch
  directory, download, extract, `move_and_normalize`, `copy_dir_recursive`),
  `sdk install` and `sdk upgrade`.
- `Commands`, `Flush`, `Listing` — `use`, `default`, `uninstall`, `home`,
  `current`, `flush` and the `list` table parser.
- `Text`, `Wrappers` — string helpers (`trim`, `split`, `split_once`,
  `lines`, `rsplit_once`) and `Option`/`Result`.

Code that works by mutation is written as methods over `FileSystem`. Each
such method's `ensures` ties the new tree to a specification function of the
old tree, and lemmas prove the source's promises about those functions. For
example: after `set_current_version` the current version reads back. A
version that is not installed gives an error and changes nothing.
`uninstall` keeps every other version. `copy_dir_recursive` reproduces the
tree it copies.

## Model

| member | source | states |
|---|---|---|
| Store.DetectPlatform | src/core/env.rs:10-22 | succeeds exactly for linux/macos on x86_64/aarch64 and windows on x86_64, with the API token os-part + arch-part; every other pair gives "Unsupported platform: os arch" |
| Store.PlatformTokensDistinct | src/core/env.rs:14-19 | two supported (os, arch) pairs with the same token are the same pair |
| Store.SdkmanDir | src/core/env.rs:34-45 | `SDKMAN_DIR` wins when set; otherwise `.sdkman` in the home directory; without either, the "Could not find home directory" error |
| Store.LayoutShape | src/core/env.rs:57-67 | a version directory and the `current` marker are siblings in the candidate's directory, and coincide (or nest) exactly when the version is named "current" |
| Store.LayoutInjective | src/core/env.rs:57-67 | distinct (candidate, version) pairs get distinct directories; distinct candidates distinct markers |
| Store.InstalledVersions | src/core/env.rs:81-102 | every version reported is a directory entry of the candidate, is a directory, and is not named "current" |
| Store.InstalledVersionsExactly | src/core/env.rs:87-99 | in a well-formed store, n is reported exactly when n is not "current" and its version path is a directory (both directions) |
| Store.NoVersionsWithoutHome | src/core/env.rs:87-89 | a missing candidate directory reports no versions |
| Store.GetInstalledVersions | src/core/env.rs:81-102 | the loop over the directory listing returns each version once, exactly the versions of `InstalledVersions` |
| Store.ReadMarker | src/core/env.rs:114-139 | no version when the marker does not exist; on Unix a version is the last component of the link target; on Windows it is trimmed |
| Store.PlaceMarkerWf | src/core/env.rs:164-182 | the marker update keeps the store well formed, whichever step fails |
| Store.PlaceMarkerFrame | src/core/env.rs:164-182 | the marker update changes nothing outside the marker except for the ancestors it creates |
| Store.PlaceMarkerOutcome | src/core/env.rs:164-182 | with the parent in place, the update succeeds exactly when the old marker is missing or removable; then the marker is a link to the target (Unix) or a directory with the version in `.version` (Windows) |
| Store.SetCurrentNotInstalled | src/core/env.rs:159-162 | a version that is not installed gives "c v is not installed" and changes nothing |
| Store.SetCurrentOutcome | src/core/env.rs:155-185 | for an installed version: the store stays well formed, success exactly when the marker is replaceable, nothing outside the marker changes |
| Store.SetCurrentNewNodes | src/core/env.rs:164-176 | every node the update adds lies at or inside the marker; every node outside it is unchanged |
| Store.PlaceMarkerLinks | src/core/env.rs:164-182 | the only link a marker update can add is the marker itself; every other link was there before, unchanged |
| Store.MarkerTailLinks | src/core/env.rs:173-182 | the last step of a marker update, the link or the `.version` directory, adds no link other than the marker |
| Store.SetCurrentLinks | src/core/env.rs:155-185 | the only link `set_current_version` can add is the candidate's marker |
| Store.SetThenGet | src/core/env.rs:114-185 | setting an installed version and reading the marker back gives that version (on Windows when the version is already trimmed) |
| Store.SetTwice | src/core/env.rs:155-185 | setting v1 and then v2 succeeds and reads back v2 |
| Store.DanglingMarkerBlocksSet | src/core/env.rs:169-176 | a marker link whose target is gone is not removed (it does not "exist"), so the new link cannot be created: the update fails and changes nothing |
| Store.SettledReads | src/core/env.rs:114-139 | a candidate settled at v reads back v, and its marker is tidy |
| Store.TidyReplaceable | src/core/env.rs:169-176 | a marker as this program leaves it never blocks an update |
| Store.SetSettles | src/core/env.rs:155-185 | setting a present version over a tidy marker succeeds, changes only the marker, and leaves the candidate settled at that version |
| Store.KeptApart | src/core/env.rs:155-185 | updating another candidate's marker keeps this candidate tidy and settled |
| Store.KeptAway | src/core/env.rs:155-185 | updates confined to other candidates' markers keep this candidate tidy, settled, and its version directories unchanged |
| Store.SetCurrentVersion | src/core/env.rs:155-185 | the method's result and new tree are those of `SetCurrent` on the old tree |
| Store.PlaceMarkerAt | src/core/env.rs:164-182 | the file-system calls one at a time give the result and tree of `PlaceMarker` |
| Store.LocalSdkmanDir | src/core/env.rs:198-205 | a local store is `.sdkman` in the working directory, and it exists |
| Store.LocalEnvIffLocalDir | src/core/env.rs:188-205 | `is_local_env` holds exactly when `local_sdkman_dir` finds a store |
| Store.SetLocalGuards | src/core/env.rs:221-229 | no local store gives "No local .sdkman directory found", a missing global install "c v is not installed"; neither changes anything |
| Store.SetLocalEffect | src/core/env.rs:221-255 | a local activation keeps the store well formed, needs both guards to succeed, changes only the local marker and its new ancestors; on Unix it links the marker to the global installation, on Windows it leaves the marker a directory whose `.version` holds the version |
| Store.PlacedLink | src/core/env.rs:243-246 | a successful Unix marker update leaves the marker a link to the target |
| Store.PlacedVersionFile | src/core/env.rs:248-252 | a successful Windows marker update leaves the marker a directory of its own whose `.version` file holds the version |
| Store.SetLocalCurrentVersion | src/core/env.rs:221-255 | the method's result and new tree are those of `SetLocalCurrent` |
| Sdkmanrc.ParseLineShape | src/commands/env.rs:157-165 | a line declares nothing exactly when it is blank, a comment or has no '='; keys and values come out trimmed |
| Sdkmanrc.ParseLineSplit | src/commands/env.rs:163-164 | a line splits at its first '=' and both sides are trimmed |
| Sdkmanrc.ParseSdkmanrcContent | src/commands/env.rs:151-168 | the parsing loop returns exactly the map `ParseContent` of the content |
| Sdkmanrc.ParseLinesSnoc | src/commands/env.rs:157-166 | one more line adds its declaration, replacing an earlier value of the same key |
| Sdkmanrc.ParsedKeys | src/commands/env.rs:155-166 | exactly the keys some line declares are in the map (both directions) |
| Sdkmanrc.LastDeclarationWins | src/commands/env.rs:163-164 | a key maps to the value of the last line that declares it |
| Sdkmanrc.AppendIgnored | src/commands/env.rs:158-161 | a blank, comment or '='-less line changes nothing |
| Sdkmanrc.OnlyIgnored | tests/env_tests.rs:58-64 | content of only comments and blank lines declares nothing |
| Sdkmanrc.EmptyContent | tests/env_tests.rs:36-42 | empty content declares nothing |
| Sdkmanrc.ReadTerminated | src/commands/env.rs:157 | content written as lines each ended by "\n" reads back as exactly those lines |
| Sdkmanrc.ThreeLines | src/commands/env.rs:157 | three "\n"-terminated lines are read as three declarations, in order |
| Sdkmanrc.DeclarationRoundTrip | src/commands/env.rs:163-164 | a line `key=value` written from a plain key and value parses back to (key, value) |
| Sdkmanrc.ThreeDeclarations | tests/env_tests.rs:5-14 | three declaration lines give the map of the three pairs, a later key replacing an earlier one |
| Sdkmanrc.PaddedLine | tests/env_tests.rs:26-34 | whitespace around the key, the '=' and the value is trimmed away |
| Sdkmanrc.EmptyKey | tests/env_tests.rs:44-56 | a line `=value` declares the empty key |
| Sdkmanrc.EmptyValue | tests/env_tests.rs:44-56 | a line `key=` gives the key the empty value |
| EnvCommand.ReadDeclarations | src/commands/env.rs:105-114 | locating, reading and parsing `.sdkmanrc` gives `Declared`: the current-directory error, the "missing" message, the read error, or the parsed map |
| EnvCommand.InitLinesSnoc | src/commands/env.rs:62-68 | each visited entry with a version in use adds its `c=v` line, others add nothing |
| EnvCommand.InitContent | src/commands/env.rs:55-71 | the content built line by line is the two header lines and the `c=v` lines, each ended by "\n" |
| EnvCommand.EnvInit | src/commands/env.rs:46-80 | for some listing order of the candidates directory, the result and new tree are those of `InitSpec` |
| EnvCommand.InitOutcome | src/commands/env.rs:46-80 | init fails, changing nothing, when the working directory is unknown or `.sdkmanrc` resolves there; otherwise it succeeds exactly when the file can be created where `File::create` lands, and then writes only that node: `.sdkmanrc` itself when nothing is there and the directory exists, or the path a dangling `.sdkmanrc` link names, the link kept |
| EnvCommand.HeaderIgnored | src/commands/env.rs:55-56 | the two header lines are comments that declare nothing |
| EnvCommand.InitLinesAreLines | src/commands/env.rs:55-68 | every line written is a line of its own (no line break inside) |
| EnvCommand.InitLinesRead | src/commands/env.rs:55-68 | the lines written parse back to exactly the versions in use of the visited entries, whatever the order |
| EnvCommand.InitRoundTrip | src/commands/env.rs:55-71 | what init writes parses back to exactly the current version of every candidate directory (when names and versions fit on a line) |
| EnvCommand.InitThenDeclared | src/commands/env.rs:46-114 | after a successful init, `install`, `load` and `clear` read back exactly the versions that were in use |
| EnvCommand.InstallLoop | src/commands/env.rs:94-100 | one report per declaration in order: "already installed" when installed, "Would install" otherwise |
| EnvCommand.EnvInstall | src/commands/env.rs:82-103 | the `Declared` error passes through; otherwise the reports of some listing of the declarations, joined by "\n"; nothing is installed |
| EnvCommand.ItemsListed | src/commands/env.rs:94 | a listing of the declared map names each candidate once, with its value |
| EnvCommand.InstallReportsCover | src/commands/env.rs:94-100 | every declaration gets exactly one report, "already installed" exactly when its version is installed |
| EnvCommand.LoadStepsSnoc | src/commands/env.rs:117-125 | the load loop is one step per declaration |
| EnvCommand.LoadStopped | src/commands/env.rs:121-122 | once an activation fails, later declarations are not visited |
| EnvCommand.PairsSnoc | src/commands/env.rs:117-125 | one more declaration adds one message and, when installed, one activated candidate |
| EnvCommand.LoadSkips | src/commands/env.rs:118-119 | a declaration whose version is missing adds "not installed" and changes nothing |
| EnvCommand.LoadSets | src/commands/env.rs:120-123 | an installed declaration over a tidy marker is settled at its version, touching only its marker |
| EnvCommand.LoadedAsSnoc | src/commands/env.rs:117-125 | the load invariant after one more activated declaration |
| EnvCommand.SettledCarried | src/commands/env.rs:117-125 | activating one candidate keeps every other declared candidate settled |
| EnvCommand.LoadOutcome | src/commands/env.rs:105-128 | for activatable declarations of distinct candidates: no failure, one message each, every installed one settled, nothing changed outside those markers |
| EnvCommand.LoadActivates | src/commands/env.rs:105-128 | after load, every declared installed version reads back as current, and nothing outside the declared markers changed |
| EnvCommand.LoadLoop | src/commands/env.rs:115-125 | the loop's result and new tree are those of `LoadSteps`, including the early stop with "Failed to set c: e" |
| EnvCommand.EnvLoad | src/commands/env.rs:105-128 | the `Declared` error passes through with nothing changed; otherwise the outcome of the loop over some listing of the declarations |
| EnvCommand.ClearStepsSnoc | src/commands/env.rs:141-146 | the clear loop is one step per declaration |
| EnvCommand.ClearLoop | src/commands/env.rs:141-146 | the loop's new tree is `ClearSteps` of the old one |
| EnvCommand.EnvClear | src/commands/env.rs:130-149 | the `Declared` error passes through with nothing changed; otherwise "Cleared environment" and the tree of the loop over some listing |
| EnvCommand.ClearStepOutcome | src/commands/env.rs:142-145 | one removal keeps the tree well formed, only removes, and leaves the candidate's marker unset |
| EnvCommand.ClearFrame | src/commands/env.rs:141-146 | clear only removes nodes, and only at or inside the declared candidates' markers |
| EnvCommand.ClearOutcome | src/commands/env.rs:141-146 | clear only removes, only inside declared markers, and leaves every declared marker unset |
| EnvCommand.ClearUnsets | src/commands/env.rs:141-146 | after clear no declared candidate has a current version |
| EnvCommand.ClearKeepsVersions | src/commands/env.rs:141-146 | clear never touches an installed version directory |
| EnvCommand.UnsetReads | src/core/env.rs:114-139 | an unset marker reads as no version |
| EnvCommand.EnvDispatch | src/commands/env.rs:34-42 | an unknown subcommand gives "Unknown subcommand: x" and changes nothing; `install` changes nothing |
| Api.DownloadUrlSegments | src/core/api.rs:72-74 | the download URL is the broker endpoint followed by exactly the segments candidate, version, platform (when none holds '/') |
| Api.CandidateNames | src/core/api.rs:13-19 | one name per comma-separated item of the answer, each trimmed, empty ones kept |
| Api.ValidateCandidate | src/core/api.rs:76-82 | a transport error passes through; otherwise success exactly when the name is one of the listed names, else "Unknown candidate: c" |
| Api.EmptyListAcceptsEmptyName | src/core/api.rs:13-19 | an empty candidate list answer still holds one empty item, so the empty name is accepted |
| Api.VendorIsAfterFirstDash | src/core/api.rs:46-51 | the vendor is the text after the first '-', or "" when the version has none |
| Api.ItemsTrimmed | src/core/api.rs:41-44 | every version item is non-empty and trimmed |
| Api.ParseVersionsText | src/core/api.rs:36-62 | one entry per non-empty trimmed item, in order, each with its vendor and `default` false |
| Api.ParsedVersionsShape | src/core/api.rs:41-59 | every parsed version is non-empty, trimmed, free of ',', not a default, and carries its vendor |
| Api.ParseJoinedVersions | tests/api_tests.rs:5-58 | versions written as a comma-separated list parse back to those versions, in order, with their vendors |
| Api.GetDefaultVersion | src/core/api.rs:64-70 | a transport error passes through; otherwise the first listed version, or "No versions found" when there is none |
| Archive.Extension | src/utils/archive.rs:82 | the extension is the dot-free text after the last '.', and never the whole name (a leading '.' or ".." has none) |
| Archive.ExtensionOfName | src/utils/archive.rs:82 | a name `stem.ext` with a non-empty stem has extension `ext` |
| Archive.PlaceEntry | src/utils/archive.rs:48-61 | writing one member keeps the tree well formed and removes nothing |
| Archive.Unpack | src/utils/archive.rs:47-62 | writing the members in order keeps the tree well formed and removes nothing |
| Archive.UnpackStops | src/utils/archive.rs:47-62 | after the first failing member, the rest are not written |
| Archive.UnpackPlaces | src/utils/archive.rs:47-62 | after a complete unpacking each member is at its own path below the destination: a directory, or a readable file |
| Archive.LastFileContent | src/utils/archive.rs:59-60 | a file member written last holds exactly its content |
| Archive.LaterFileWins | src/utils/archive.rs:59-60 | of two file members at the same path, one after the other, only the later counts (`File::create` truncates) |
| Archive.Finish | src/utils/archive.rs:25 | extraction succeeds only when every member was written and the reader itself did not fail |
| Archive.UnpackLinks | src/utils/archive.rs:47-62 | writing members out creates no links |
| Archive.ExtractFrame | src/utils/archive.rs:81-89 | extraction keeps the tree well formed and removes nothing; since the modelled readers deliver only directories and regular files, it creates no links |
| Archive.UnsupportedFormat | src/utils/archive.rs:84-88 | an extension other than "gz" or "zip" gives "Unsupported archive format" and changes nothing |
| Archive.MissingArchive | tests/archive_tests.rs:37-44 | a missing archive is an error, and the destination is not created |
| Archive.DestinationCreated | tests/archive_tests.rs:46-59 | a readable archive gets its destination created with its missing ancestors, whatever happens to the members |
| Archive.ExtractPlaces | src/utils/archive.rs:18-65 | a successful extraction leaves the destination a directory and every delivered member in place |
| Archive.PlaceEntries | src/utils/archive.rs:47-62 | the member loop gives the result and tree of `Unpack` |
| Archive.PlaceOne | src/utils/archive.rs:48-61 | writing one member gives the result and tree of `PlaceEntry` |
| Archive.ExtractTarGz | src/utils/archive.rs:18-28 | open, create the destination, unpack: the result and tree of `ExtractTarGzSpec` |
| Archive.ExtractZip | src/utils/archive.rs:41-65 | open, read the directory, create the destination, write members: the result and tree of `ExtractZipSpec` |
| Archive.Extract | src/utils/archive.rs:81-89 | dispatch on the extension: the result and tree of `ExtractSpec` |
| Install.CopyDirRecursive | src/core/install.rs:83-95 | on success `src` was a directory and `dst` now is one; every node inside the directory `src` leads to has its copy at the same place under `dst` (directories as directories, files with their content, links as files of what they lead to), and nothing under `dst` is not such a copy; on any outcome only nodes inside or on the way to `dst` are added, nothing is removed and no link is made |
| Install.CopyEntries | src/core/install.rs:85-93 | the loop over the listed entries stops at the first failure; when it completes, every entry of `q` has been copied in full |
| Install.CopyDirEntry | src/core/install.rs:88-89 | a subdirectory entry is copied recursively and then counts as copied, with the copy's frame kept |
| Install.CopyFileEntry | src/core/install.rs:90-91 | any other entry is copied with `fs::copy`; a failed copy changes nothing, a successful one makes the entry count as copied |
| Install.CopyStart | src/core/install.rs:84-85 | after `create_dir_all(dst)`, `read_dir(src)` lists exactly the entries of the directory `src` leads to as it was before, and nothing has been copied yet |
| Install.CopyEnd | src/core/install.rs:93-94 | once every listed entry is copied, the whole directory is reproduced under `dst` and nothing else is there |
| Install.SubtreeShrinks | src/core/install.rs:89 | the recursive call on a subdirectory works on strictly fewer nodes, so the recursion ends |
| Install.Payload | src/core/install.rs:61-65 | the payload is inside `source`: its only entry when that entry is a directory, `source` itself otherwise |
| Install.PayloadOf | src/core/install.rs:57-65 | whatever order `read_dir` lists the entries in, the choice made from `entries[0]` is `Payload` |
| Install.PayloadIsDir | src/core/install.rs:61-65 | with no links inside it, the payload of a directory is itself a real directory with no links inside |
| Install.MoveAndNormalize | src/core/install.rs:55-81 | a `source` that is not a directory fails with nothing changed; on success the payload is at `destination` node for node, its old place is empty, only directories on the way to `destination` are new, and everything outside `source` and `destination` is as it was; on failure too nothing outside them is lost and no link is created |
| Install.MovePayload | src/core/install.rs:67-80 | with the payload chosen, clearing, rename and the copy-then-remove fallback together either move it to `destination` or leave everything outside payload and `destination` in place |
| Install.ClearDestination | src/core/install.rs:67-73 | an existing `destination` is removed and its parent created; nothing outside `destination` changes except new ancestors of it |
| Install.PrepareParent | src/core/install.rs:71-73 | creating the parent of `destination` adds only directories above `destination` and leaves it free |
| Install.RenamedMoved | src/core/install.rs:76 | a successful rename of the payload into the prepared destination moves it |
| Install.CopiedMoved | src/core/install.rs:77-78 | a complete copy of a link-free payload followed by the removal of the original moves it too |
| Install.MovedDestination | src/core/install.rs:76-80 | after either kind of move `destination` is a real directory |
| Install.ArchiveNameExtension | src/core/install.rs:13-14 | the download is named so that `extract` picks the zip reader on Windows and the gzipped-tar reader elsewhere |
| Install.ScratchNamesCollide | src/core/install.rs:10 | "c-v" names collide: candidate "a-b" version "c" and candidate "a" version "b-c" share a scratch directory |
| Install.ScratchNameInjective | src/core/install.rs:10 | without '-' in the candidate names, the scratch directory names are equal exactly when candidate and version are |
| Install.DownloadStep | src/utils/download.rs:19-25 | a failed request writes nothing and passes its error on; success means the request succeeded and `output` holds the body |
| Install.LocalMissing | src/core/install.rs:36-38 | a missing local archive is refused with "Local file not found: path" before anything is created |
| Install.InstallStageReader | src/core/install.rs:10-21 | once the scratch directory exists and the download succeeds, the archive holds the body of the answer and is unpacked by the platform's reader into `source` |
| Install.CleanupInstalled | src/core/install.rs:30 | removing the scratch directory after the move leaves the installed payload in place and removes nothing else |
| Install.ScratchSurvives | src/core/install.rs:27-30 | the move leaves the scratch directory a real directory, so its removal succeeds |
| Install.InstallCandidate | src/core/install.rs:6-33 | a failure of directory creation, download or extraction is exactly the failure of the install stage, with its file system; on success the payload of what was unpacked is installed at the version's directory node for node and the scratch directory is gone; whatever happens, nodes outside the scratch directory and the version's directory survive and no link is made |
| Install.MoveIntoPlace | src/core/install.rs:26-30 | the payload moves to the version's directory and the scratch directory is removed, its failure ignored |
| Install.InstallLocal | src/core/install.rs:35-53 | the same as `InstallCandidate` for an archive already on disk, with the missing-archive check first |
| InstallCommand.InstallTarget | src/commands/install.rs:38-56 | the version to install: an unknown candidate or unsupported platform fails with that error; else the given version or the API's default, whose failure gives "Failed to get default version: e"; an installed version, given or defaulted, is refused with "c v is already installed"; every other case yields the version |
| InstallCommand.StoreOutsideScratch | src/core/install.rs:10 | a scratch directory apart from the version directory it fills holds neither the candidate's marker nor any of its version directories other than itself |
| InstallCommand.InstallKeepsSettled | src/commands/install.rs:58-64 | an install of a version, by `install` or `upgrade`, whether it fails or not, keeps a Unix marker settled on another version there, unless that version's directory is the scratch directory itself |
| InstallCommand.MarkerOutsideExtract | src/core/install.rs:10 | no marker of the store lies where such a scratch directory unpacks its archive |
| InstallCommand.ClearWithoutNewLinks | src/core/install.rs:6-33 | a step that adds no link keeps a scratch directory clear |
| InstallCommand.SetKeepsClear | src/core/env.rs:155-185 | `set_current_version` on any candidate keeps every clear scratch directory clear |
| InstallCommand.InstallVersion | src/commands/install.rs:58-64 | `install_local` with `--local`, else `install_candidate`: the stage's failure with its file system, or the payload installed at the version's directory; nodes outside the scratch and version directories survive and no link is made |
| InstallCommand.InstallAndActivate | src/commands/install.rs:58-72 | a stage failure is reported with its prefix and the stage's file system; any other install failure carries the same prefix, keeps everything outside the scratch and version directories and adds no link, and leaves a Unix marker settled on another version as it was; after a successful install the version's directory is real and holds the payload, and the result and file system are exactly those of `set_current_version` on the installed tree, "c v installed successfully" or "Failed to set current version: e" |
| InstallCommand.ActivatedReads | src/core/env.rs:114-185 | after a successful `set_current_version` on a version installed as a real directory, `get_current_version` reads that version |
| InstallCommand.InstallCmd | src/commands/install.rs:27-73 | a guard failure changes nothing; then the install and activation of the resolved version, as `InstallAndActivate` states them: every install and activation failure is reported with its prefix and what it leaves, a failed install keeping a settled Unix marker on the version it named; on success the message is "c v installed successfully", the version's directory is a real directory and it reads back as current |
| Upgrade.UpgradePlan | src/commands/upgrade.rs:42-63 | refuses with "No c version currently in use" without a current version, then with the platform's error or "Failed to get latest version: e"; otherwise the current version is read, the latest is the API's default version, "already at the latest" exactly when they are equal, a switch when the latest is installed and a fetch when it is not |
| Upgrade.SwitchSettles | src/commands/upgrade.rs:63-70 | switching from a marker this program left to an installed latest version succeeds, changes only the marker and leaves the latest version current |
| Upgrade.SetKeepsSeparate | src/core/env.rs:155-185 | setting any marker of the store keeps every scratch directory of `upgrade_all` clear |
| Upgrade.UpgradeCandidate | src/commands/upgrade.rs:42-83 | a refusal or "already at the latest version (v)" changes nothing; a switch is `set_current_version` with its message; a fetch is as `FetchAndSwitch` states it; on Unix, from a settled marker to a stored version, the switch succeeds and the latest version reads back as current |
| Upgrade.SwitchTo | src/commands/upgrade.rs:63-71 | the switch is exactly `SwitchSpec`; from a settled Unix marker to a stored version it succeeds and the latest version reads back as current |
| Upgrade.FetchAndSwitch | src/commands/upgrade.rs:73-82 | an install stage failure is "Upgrade failed: e" with the stage's file system; any other install failure carries that prefix, keeps everything outside the scratch and version directories and adds no link; after a successful install the result and file system are exactly the switch's; on Unix, from a settled marker, success leaves the latest version current and a failure the old one |
| Upgrade.FetchFailed | src/commands/upgrade.rs:73-74 | a failed install ends the upgrade as "Upgrade failed: e", with the install stage's tree when the stage failed, and keeps a settled Unix marker on the old version |
| Upgrade.FetchSwitched | src/commands/upgrade.rs:73-82 | after a successful install the upgrade's result and tree are the switch's; from a settled Unix marker the latest version reads back as current |
| Upgrade.SeparateWithoutNewLinks | src/commands/upgrade.rs:73-74 | an install, which adds no link, keeps every scratch directory of `upgrade_all` clear |
| Upgrade.UpgradeAll | src/commands/upgrade.rs:85-117 | no candidates directory: "No candidates installed" and nothing changed; an unreadable one: an empty list and nothing changed; otherwise the entries are visited once each in the order the directory lists them, each from the file system the previous visit left, an eligible entry upgraded as `UpgradeCandidate` states and any other passed over unchanged; the report holds one line per upgrade, in visit order, the message or "c: error" |
| Upgrade.VisitAll | src/commands/upgrade.rs:95-113 | the entries are visited in order, each from the tree the previous visit left, each visit as `VisitCandidate` states; the lines are exactly those of the visits that upgraded, in order |
| Upgrade.VisitCandidate | src/commands/upgrade.rs:97-111 | an entry is upgraded, as `UpgradeCandidate` states, exactly when it is a directory with a current version; any other entry is passed over with nothing changed |
| Commands.Use | src/commands/use.rs:32-54 | performs exactly the guard and the marker calls of `UseSpec`: an uninstalled version is refused with "c v is not installed. Run 'sdk install c v' first"; inside a local environment the local marker is set, otherwise the global one, each with its own failure prefix and message |
| Commands.UseNotInstalled | src/commands/use.rs:36-41 | a version that is not installed is refused and nothing changes |
| Commands.UseGlobal | src/commands/use.rs:48-50 | outside a local environment, over a marker this program left, using an installed version succeeds with "Using c v", makes it current and changes only the global marker |
| Commands.UseLocal | src/commands/use.rs:43-46 | inside a local environment apart from the global store, the global marker is left as it was and success reads "Using c v (local)" |
| Commands.MarkersApart | src/core/env.rs:221-255 | the local marker and the global marker of the same candidate lie apart when the two stores do |
| Commands.Default | src/commands/default.rs:32-57 | performs exactly `DefaultSpec`: the given version or else the current one, refused when there is none or when it is not installed, then `set_current_version` with "Failed to set default version" on failure and "Default c version set to v" on success |
| Commands.DefaultRefuses | src/commands/default.rs:36-48 | no version and no current version, or a version not installed: the matching error and nothing changed |
| Commands.DefaultSets | src/commands/default.rs:50-56 | defaulting to an installed version over a marker this program left succeeds, settles the candidate at it and changes only the marker |
| Commands.DefaultKeepsCurrent | src/commands/default.rs:36-41 | with the version omitted, the current version is set again and stays current |
| Commands.Uninstall | src/commands/uninstall.rs:32-59 | performs exactly `UninstallSpec`: refuse an uninstalled version, remove its directory ("Failed to remove installation" on failure), then remove the marker only if it still reads as the version, ignoring that removal's failure |
| Commands.UninstallTree | src/commands/uninstall.rs:45-53 | after a successful uninstall the tree is the old one without the version's directory, and also without the marker exactly when that still read as the version |
| Commands.UninstallKeepsCurrent | src/commands/uninstall.rs:47-52 | uninstalling a version other than the one in use leaves the marker node as it was, and the version in use still reads back as current |
| Commands.MarkerRemovable | src/commands/uninstall.rs:50-51 | a marker that reads as a version can be removed by `remove_dir_all` |
| Commands.UninstallEffect | src/commands/uninstall.rs:32-59 | an uninstalled version is refused with nothing changed; any outcome only removes nodes; success leaves the version not installed and not current, and every node outside its directory and the marker as it was |
| Commands.UninstallKeepsOthers | src/commands/uninstall.rs:45-53 | the other versions of the candidate and the markers of the other candidates survive |
| Commands.PruneKeepsVersion | src/commands/uninstall.rs:45-51 | removing one version's directory and then the marker keeps every other version directory |
| Commands.PruneKeepsMarker | src/commands/uninstall.rs:45 | removing a settled version's directory leaves the marker beside it in place |
| Commands.UninstallLeavesDanglingLink | src/commands/uninstall.rs:45-53 | on Unix, uninstalling the version in use succeeds but leaves the marker a dangling link that reads as no version; activating another installed version afterwards fails and changes nothing |
| Commands.UninstallFixedRemoves | src/commands/uninstall.rs:45-53 | with the current version read before the removal, uninstalling the version in use removes both its directory and the marker |
| Commands.UninstallFixedClears | src/commands/uninstall.rs:45-53 | after the corrected uninstall no marker is left, and activating another installed version succeeds and reads back |
| Commands.Home | src/commands/home.rs:32-48 | succeeds exactly when the version is installed, with the path of its directory; otherwise "c v is not installed. Run 'sdk install c v' first" |
| Commands.ShowCurrent | src/commands/current.rs:42-56 | a record of the candidate and its version exactly when a version is in use; otherwise "No c version in use" |
| Commands.ShowAllCurrent | src/commands/current.rs:58-86 | one record per candidate directory with a version in use, each once, and exactly the pairs `CurrentVersions` gives; nothing is changed |
| Commands.ShowCurrentCommand | src/commands/current.rs:32-38 | with a candidate, `ShowCurrent`; without one, the list of every version in use |
| Flush.FlushDir | src/commands/flush.rs:70-87 | performs exactly `FlushDirSpec`: existence test, entry count, best-effort removal and re-creation, and the report appended to those before |
| Flush.FlushDirEffect | src/commands/flush.rs:70-87 | a missing path or a file is left alone and not reported; a directory or link becomes an empty directory, reported as "name (n items)" exactly when it had n > 0 entries |
| Flush.FlushDirFrame | src/commands/flush.rs:79-80 | flushing `p` changes nothing outside `p` and adds nothing outside it |
| Flush.FlushMessage | src/commands/flush.rs:60-64 | "Nothing to flush" exactly when nothing was reported, otherwise "Flushed: " and the reports joined by ", " |
| Flush.Flush | src/commands/flush.rs:32-67 | performs exactly `FlushSpec`: `tmp`/`temp`, `metadata`, `version` or, for anything else, both directories, in that order |
| Flush.CachesApart | src/commands/flush.rs:38-57 | the scratch directory, the metadata cache and the version file lie apart from each other |
| Flush.FlushScope | src/commands/flush.rs:38-58 | each target changes only its own place (both directories for the default), and only the `version` target can fail |
| Flush.FlushDirElsewhere | src/commands/flush.rs:53-57 | flushing one directory leaves a directory apart from it, and its listing, as they were |
| Flush.FlushAllEmpties | src/commands/flush.rs:53-64 | with no target both existing directories end up empty and the message lists, scratch directory first, those that held entries with their counts |
| Flush.FlushVersionEffect | src/commands/flush.rs:45-52 | a missing version file is "Nothing to flush"; a file there is removed and reported as "version file"; a directory there is the removal error with nothing changed |
| Listing.VendorCarried | src/commands/list.rs:75-78 | the vendor the loop carries after a line is the last non-empty first field of a record line so far |
| Listing.ParseRowsFrom | src/commands/list.rs:64-101 | parsing the remaining lines with the vendor of the lines before completes the line-by-line reading |
| Listing.ParseRowsByLine | src/commands/list.rs:64-101 | the table is the rows of the lines, in order, that are not headings, have six fields and an identifier, each with the last vendor named up to its line |
| Listing.RowsThroughLength | src/commands/list.rs:64-101 | at most one row per line |
| Listing.RowsThroughShape | src/commands/list.rs:75-88 | every row has all its fields trimmed and a non-empty identifier |
| Listing.ParsedRowsShape | src/commands/list.rs:64-112 | the rows of a table number no more than its lines, are trimmed and each has an identifier |
| Listing.RowLineRoundTrip | src/commands/list.rs:70-100 | a row written as a '|'-separated line that is not a heading reads back as that row, with the carried vendor when its own is empty |
| Listing.ParseTable | src/commands/list.rs:61-101 | the loop over `text.lines()` yields exactly `ParseRows`, the skipped headings, short lines and empty identifiers included |
| Listing.ListCandidates | src/commands/list.rs:42-47 | the API's candidate list as text, or "Failed to fetch candidates: e" |
| Listing.ListVersions | src/commands/list.rs:49-113 | the validation error, then the platform error, then the table request for the current version (or "") and the comma-joined installed versions: "Failed to fetch versions: e", or the parsed table |
| Listing.List | src/commands/list.rs:32-38 | without a candidate the candidate list; with one, `ListVersions` for the installed versions in the order the store lists them |
| Fs.Follow | src/core/env.rs:114-127 | following links from `p` ends, when it succeeds, at a node that is not a link (the node itself when it is none); a missing path is "not found" |
| Fs.Entries | src/core/env.rs:91-96 | a name is an entry of `p` exactly when `p` followed by it is a node |
| Fs.ListDir | src/core/env.rs:87-96 | `read_dir` succeeds exactly on what is a directory (through a link too), with the entries of that directory |
| Fs.ReadFile | src/core/env.rs:133-137 | reading succeeds exactly when the path leads to a regular file, with its content |
| Fs.ReadLink | src/core/env.rs:122-127 | `read_link` succeeds exactly on a link, with its target |
| Fs.Prune | src/core/install.rs:30 | the tree without `p` and what lies inside it, everything else unchanged |
| Fs.CreateDirAllStep | src/core/install.rs:11 | success leaves a directory at `p`; no node is changed, and every new node is a directory on the way to `p`; an existing directory is a success with no change; `p` there but not a directory fails with "File exists", a parent that is a file with "Not a directory" and a parent link that loops with "Too many levels of symbolic links", each with nothing changed; a well-formed tree stays well formed |
| Fs.FileAncestorBlocks | src/core/install.rs:11 | when the nearest ancestor of `p` that exists is a file, `create_dir_all(p)` fails with "Not a directory" and changes nothing, however many levels are missing |
| Fs.CreateDirAllInside | src/core/install.rs:11 | what `create_dir_all(p)` creates lies outside anything apart from `p` |
| Fs.RemoveDirAllStep | src/core/install.rs:68 | succeeds exactly on a directory or link other than the root, leaving the tree without it and all it holds; failure changes nothing |
| Fs.RemoveFileStep | src/commands/flush.rs:48 | succeeds exactly on a file or a link, removing that node alone; failure changes nothing |
| Fs.SymlinkStep | src/core/env.rs:175 | succeeds exactly where nothing is (not even a dangling link) inside an existing directory, adding the link; failure changes nothing |
| Fs.ChainEnd | src/core/env.rs:181 | the end of the link chain from `p` is the node `Follow` reaches when that succeeds, the missing path a dangling link names when `Follow` finds nothing, and nothing exactly when the chain is too long |
| Fs.WriteFileStep | src/core/env.rs:181 | the write succeeds exactly when the link chain from `p` ends within the link limit at a regular file, or at a missing path whose parent is a directory; it then puts the file there and nowhere else (so a dangling link gets the file it names) and the content reads back at `p`; a failure changes nothing |
| Fs.FollowRewritten | src/core/env.rs:181 | putting a file at the end of a link chain makes the chain resolve to that file |
| Fs.WriteTwice | src/core/env.rs:181 | writing a file twice leaves the file system as the second write alone would |
| Fs.CopyFileStep | src/core/install.rs:91 | `fs::copy` succeeds only from a regular file (through links) and then writes its content to `dst`; failure changes nothing |
| Fs.Move | src/core/install.rs:76 | the subtree at `src` is carried to `dst` node for node, whatever was at `dst` is gone, and everything else is unchanged |
| Fs.RenameStep | src/core/install.rs:76 | success needs `src` to exist, one device and `dst` outside `src`, and then moves the subtree; every refusal changes nothing; a well-formed tree stays well formed |
| Fs.FileSystem.ReadDir | src/core/install.rs:57-59 | the entries of the listed directory, each once, in an order left open; an error exactly when `read_dir` fails |
| Fs.Enumerate | src/core/env.rs:91-101 | any order of a set of names lists each of them exactly once |
| Fs.PathString | src/commands/home.rs:45-47 | the root shows as "/" and every other path as its names joined after "/" |
| Text.TrimStartShape | src/commands/env.rs:158 | `trim_start` removes a prefix made only of white space, and what is left does not start with white space |
| Text.TrimEndShape | src/commands/env.rs:158 | `trim_end` removes a suffix made only of white space, and what is left does not end with white space |
| Text.TrimFixedPoint | src/commands/env.rs:158-164 | `trim` leaves a string unchanged exactly when it is already trimmed, so trimming twice is trimming once |
| Text.TrimPadded | src/commands/list.rs:75-84 | trimming white space around a trimmed non-empty text gives that text |
| Text.SplitPartsAvoidDelimiter | src/commands/list.rs:70 | no part of a split holds the delimiter |
| Text.JoinSplit | src/core/api.rs:46-48 | joining the parts of a split with the delimiter gives the input back |
| Text.SplitJoin | src/commands/list.rs:70 | splitting parts joined by a delimiter they do not hold gives the parts back |
| Text.SplitOnce | src/commands/env.rs:163 | when the delimiter occurs, the input is the text before it, the delimiter and the rest, and the text before holds no delimiter; otherwise nothing |
| Text.SplitOnceUnique | src/commands/env.rs:163 | a split at a first delimiter is the one `split_once` finds |
| Text.RSplitOnceUnique | src/utils/archive.rs:82 | a split at a last delimiter is the one `rsplit_once` finds |
| Text.LinesOfTerminated | src/commands/env.rs:157 | lines written each followed by a line break, holding no break or final carriage return, are read back by `lines()` as written |
| Text.ContainsAt | src/commands/list.rs:66 | `contains` holds exactly when the pattern occurs at some position |
| Text.NatToString | src/commands/flush.rs:83 | the decimal form of a count is non-empty and made of digits |
| Text.TerminatedSnoc | src/commands/env.rs:55-66 | writing one more line appends it and its line break |

## Left out

- Names: every candidate, version and path component is a single name. A name holding `/` or `..` is not given its path meaning.
- Paths through a link: a link is followed only as the last component. `read_dir`, `exists` and `is_dir` of a link follow it, but a path that passes through a link to a directory (a link in the middle of the path) is treated as missing. The store's layout never needs more.
- Directory order: `read_dir` yields its entries in an unspecified order, and `HashMap` iteration yields them in one too. The model lets any listing of the entries happen, so the results hold for every order.
- Network: `reqwest` is an `Api.Http` parameter, a function from URL to body or transport error. The code never checks the HTTP status, so an error page is read as a body. The model does the same.
- Install.DownloadStep: `download_file` creates the output file before reading the body. A body that fails to read therefore leaves an empty file behind, and the model does not keep that file.
- Archive decoding: gzip, tar and zip decoding (and `mangled_name` sanitisation) are the reader parameters `TarReader` and `ZipReader`, each a function from archive content to a list of entries or an error. An entry is a directory or a regular file. The symbolic and hard link members that `tar`'s `unpack` creates, and permission bits, are not modelled, so the model's extraction creates no links (`Archive.ExtractFrame`) and the "no link is made" clauses of the install pipeline hold for these readers only. A zip entry is written as a regular file, as the code does.
- Process environment: `SDKMAN_DIR`, the home directory, `PWD`, `current_dir`, the temporary directory and the compile-time OS, architecture and `cfg!(windows)` are all parameters. So is whether the temporary directory shares a device with the store.
- Fallible paths: `sdkman_dir`, `candidates_dir`, `candidate_dir` and `candidate_current` return a `Result` only because the home directory may be unknown. Three commands use such a `Result` as if it were a path, so as written they do not type-check: `src/commands/env.rs:59` and `:142` (`candidates_dir` and `candidate_current`), `src/commands/home.rs:43-45` (`to_string_lossy()` on the `Result` of `candidate_dir`) and `src/commands/flush.rs:35-40` (`sdkman_dir.join("tmp")` on the `Result` of `sdkman_dir`). In all three places the model takes the store root as given, and the paths below it are total functions of the root.
- Text encoding: names are `seq<char>`. Non-UTF-8 file names (`into_string().ok()`, `to_string_lossy`) and Windows path display are not part of this model. `Fs.PathString` writes a path Unix-style.
- Install.CopyDirRecursive: requires the destination to be vacant and disjoint from the source. For a destination inside its source the real function does not terminate, and the model does not cover that case.
- Install.MoveAndNormalize: requires the source and destination to be disjoint and the source to hold no links.
- Install.InstallCandidate: requires the scratch directory to be apart from the version directory, with no links below its `source` directory (`InstallCommand.ScratchClear`). A store inside the temporary directory meets this unless a version directory is itself, or lies inside, the scratch directory; a scratch directory left by an earlier attempt with links in it is not covered.
- InstallCommand.InstallCmd: requires `ScratchClear` for the resolved version only.
- InstallCommand.InstallAndActivate: its "marker still on the old version after a failed install" guarantee is stated for Unix, for a store whose marker is settled, and for an old version whose directory is not the scratch directory itself; on Windows only the frame (`Spared`) is stated.
- Upgrade.UpgradeAll: requires `Upgrade.Separate`, `ScratchClear` for every candidate and version, because it may fetch any listed candidate's latest version. `UpgradeCandidate`, `VisitCandidate` and `FetchAndSwitch` require it only for the version they fetch, and `SwitchTo` not at all.
- Install.InstallLocal: the same preconditions as `InstallCandidate`.
- EnvCommand.LoadOutcome: proves the per-pair outcome only when every declared pair can be activated in isolation (`Activatable`) and the keys are distinct. `LoadSkips` and `LoadStopped` state the "not installed" and failure cases one step at a time.
- Upgrade.FetchAndSwitch: its "marker still at the old version after a failed install" guarantee is stated for Unix, for a latest version other than the name `current`, for a store whose marker is settled, and for an old version whose directory is not the scratch directory itself (an install into that directory destroys the old version).
- Flush.FlushDir: requires a non-empty path, because the source calls `file_name().unwrap()` on it.
- Concurrency: concurrent invocations and races between installs of the same version are not modelled. The code has no locking.
- Nushell glue: `Value`, `Record` and `LabeledError` construction and argument parsing become strings, tuples and `Result`. `src/lib.rs`, `src/main.rs`, `aliases`, `config`, `help`, `offline`, `update` and `version` only register, delegate, spawn an editor or return fixed text, and are not part of this model.
- Scratch cleanup: the scratch directory is removed only on the success path, because `?` returns early (`Install.ScratchSurvives`).
- `env install`: it only reports "Would install" or "already installed" and never installs.
- `env init`: it writes `.sdkmanrc` only.
- `env load` and `env clear`: they set and remove the global markers, even inside a local environment.
- `extract`: no common top-level directory is stripped. The only normalisation is the single-directory rule of `move_and_normalize`.
- Windows marker: `get_current_version` trims the `.version` content.

## Findings

| source | as written | input that shows it | evidently intended | confidence | as-written member | corrected member |
|---|---|---|---|---|---|---|
| src/commands/uninstall.rs:45-53 | the version directory is removed first, then the marker is removed only if `get_current_version` still reads the version; on Unix the link now dangles, `exists()` is false, and the marker stays | a Unix store whose `current` links to installed `v`, with another installed version `w`: `sdk uninstall c v`, then `sdk use c w` fails because `symlink` meets the dangling link | the marker pointing at the removed version is cleared, so another version can be activated afterwards | not executed | Commands.UninstallLeavesDanglingLink | Commands.UninstallFixedClears |
