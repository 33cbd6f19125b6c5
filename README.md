# cpm-cli package packing, download and init, in Dafny

A model of the three pieces of sequential logic in the cpm-cli package
manager client (Go), with proofs about them.

- **Packing** (`cmd/upload.go`). `validateManifest` checks `package.yml`
  before upload: it stats the file, reads it, parses it, and lists the
  empty fields in a fixed order. `addDirToArchive` walks the package
  directory with `filepath.WalkDir`. It names each entry
  `rootName/rel`, gives directories a trailing `/`, writes one header
  per entry below the walk origin and copies the payload of regular
  files. `archiveDirectory` returns either the whole archive or only the
  error. The directory is a finite tree (`Upload.Tree`) and the walk is
  the list of callback invocations (`Upload.Walk`). The archive is the
  list of members written to the tar writer (`Tar.Entry`).
- **Download** (`internal/repository/client.go`). `Client.Download` builds
  the URL, sends the request and rejects any status outside 2xx with a
  4 KiB excerpt of the body. It then creates the destination directory,
  spools the body into a temporary file and reads it back through gzip
  and tar. Each entry is extracted to `Join(dest, Clean(name))`:
  a directory with MkdirAll, a regular file with MkdirAll of its parent
  and then a truncating open and a copy, anything else skipped. The first
  error ends the loop, and the temporary file is removed by a deferred call.
  The file system is a map from resolved paths to nodes (`Fs`), and
  `Fs.FileSystem`, the environment, is a mutable object that holds
  this map and the refusals; the methods update it.
- **Init** (`cmd/init.go`). `getUsername` tries the OS user, `$USER` and
  `$USERNAME` in that order. `initPackage` stats `package.yml` and
  refuses if it exists. Otherwise it takes the base name of the working
  directory as the package name, escapes double quotes in the name and
  the author, fills the template and writes the file with mode 0644.

Go's `path/filepath` functions `Clean`, `Join`, `Base` and `Dir` are
modelled lexically in `Paths`. `fmt.Sprintf` with `%s` verbs and
`strings.Join` are modelled in `Strings`.

Each imperative operation is a method proved equal to a specification
function of the old state, for example `Client.DownloadOn` and
`Init.InitOn`. The promised properties are lemmas about those
functions. The extraction loop in `Client.ExtractEntries` keeps the
invariant that the state is the specification applied to the entries
seen so far.

Where the code does less than its own comments suggest, the model
follows the code:

- **Path traversal.** The code does no containment check, although the
  comment at `internal/repository/client.go:107` says that cleaning the
  name avoids `../../etc/passwd`. `Client.TargetUnderDest` proves what is
  true: the target stays under `dest` whenever the cleaned name does not
  start with `..`, and an absolute name is re-rooted under `dest`.
  `Client.TargetEscapes` shows that `../etc` joined to `/srv` lands at
  `/etc`. `Client.DownloadConfined` therefore assumes every name in the
  stream stays inside, because the code has no containment check.
- **Non-regular entries.** At pack time, symlinks, devices and pipes
  get a header with no payload (`Tar.Other`). Only a
  socket stops the walk, because `tar.FileInfoHeader` has no header for
  it.
- **Escaping.** Escaping replaces `"` by `\"` and nothing else; a
  backslash in a name is written unchanged. `Init.Unescape`, which reads
  `\"` back as `"`, undoes it exactly (`Init.UnescapeEscape`). A YAML
  reader, which also treats `\\` as an escape, can read a name with a
  backslash differently. YAML is outside this model.
- **Init's tests.** `cmd/init_test.go` calls `initPackage` with two
  arguments, but `cmd/init.go:41` declares it without any. The model
  follows the declaration and uses the tests only for what they check.

## Model

| member | source | states |
|---|---|---|
| Upload.Rank | cmd/upload.go:50-62 | a name's rank is below 4 exactly when it is one of the four required fields, and it is that field's position |
| Upload.TallyStep | cmd/upload.go:50-62 | each field test appends the field's name exactly when its value is empty, keeping the list in field order |
| Upload.TallyEmpty | cmd/upload.go:64 | after the four tests the list is empty iff name, version, description and author are all non-empty |
| Upload.RequiredMissing | cmd/upload.go:50-62 | the list is in field order, holds a field's name iff that field is empty, and is empty iff all four are set |
| Upload.ValidateManifest | cmd/upload.go:27-69 | a missing file, a failed stat and a non-regular file each give their own error before any read; read and parse errors are passed on; success iff all four fields are non-empty, with the parsed manifest; otherwise the missing names in order |
| Upload.Message | cmd/upload.go:33-65 | the text of each validation error: package.yml "not found; run `cpm init` first", "failed to get manifest file: " with the cause, "is not a regular file", "failed to read" or "failed to parse" with the cause, and "missing required field(s): " with the names joined by ", " |
| Upload.Within | cmd/upload.go:78 | the calls of a child's walk, re-rooted under the child's name, keep their order, kind and node |
| Upload.AddDirToArchive | cmd/upload.go:71-123 | the members written are exactly the packing of the walk from the cleaned directory under the chosen root name; an error is returned iff the packing fails |
| Upload.PackedFailureStays | cmd/upload.go:79-81 | once a callback has failed, later callbacks do not change the result |
| Upload.ArchiveDirectory | cmd/upload.go:125-148 | the archive is absent iff there is an error; on success it is the full packing, and no partial archive is ever returned |
| Upload.WalkFromBelow | cmd/upload.go:78 | every call of a directory's child walks is below one of its children |
| Upload.OriginFirst | cmd/upload.go:78 | the origin's visit before visits below it keeps path order |
| Upload.WithinOrdered | cmd/upload.go:78 | re-rooting a walk under a name keeps path order |
| Upload.WalkOrdered | cmd/upload.go:78 | over a tree with sorted listings the visits come in strictly increasing path order: pre-order, with siblings by name |
| Upload.WalkFromOrdered | cmd/upload.go:78 | the child walks of a directory, one after the other, are in path order |
| Upload.HasChild | cmd/upload.go:78 | an entry of a child's subtree is an entry of the directory, under the child's name |
| Upload.WalkSound | cmd/upload.go:78 | each callback is for an entry of the tree, or for a directory there that cannot be read |
| Upload.WalkFromSound | cmd/upload.go:78 | each call of a directory's child walks reports an entry of that directory's subtree |
| Upload.WalkFromContains | cmd/upload.go:78 | every call of each child's walk appears in the walk of the children |
| Upload.WalkComplete | cmd/upload.go:78 | every entry of the tree gets a visit |
| Upload.InChildWalk | cmd/upload.go:78 | a call in a child's walk appears in the parent's walk under the child's name |
| Upload.WalkReportsUnlisted | cmd/upload.go:79-81 | a directory that cannot be read gets a callback with an error |
| Upload.WalkStart | cmd/upload.go:78 | the walk starts with a visit of the origin, followed by the children's walks when it is a readable directory |
| Upload.WithinMember | cmd/upload.go:78 | each call of a child's walk appears, re-rooted, in the re-rooted walk |
| Upload.RootNameShape | cmd/upload.go:72-76 | the root name is Base(Clean(dir)) when Clean(root) is "." (in particular for an empty root), otherwise Clean(root); it is clean and never empty |
| Upload.HasPlain | cmd/upload.go:83 | the relative path of every entry is made of plain names (no "", "." or "..") |
| Upload.HeaderNameShape | cmd/upload.go:101 | the header name is the root name, a "/", then the relative path (just the path when the root name is ".", no doubled slash when it is "/"); it never ends in "/", is clean, and its parts are the root's parts followed by the path's |
| Upload.MemberName | cmd/upload.go:101-112 | directories become directory headers whose name ends in "/", regular files become file members with their mode and exact bytes, any other entry a bare header; only directory names end in "/" |
| Upload.PackedSucceeds | cmd/upload.go:78-122 | packing succeeds iff every callback succeeds |
| Upload.PackedFirstError | cmd/upload.go:78-122 | a failed packing reports the error of the first failing callback |
| Upload.PackedAligned | cmd/upload.go:87-121 | a successful packing has one member per callback after the origin, each the member of that entry, in walk order; the origin writes none |
| Upload.PackFailsIff | cmd/upload.go:79-121 | packing fails iff some entry is an unreadable directory, or below the origin an unreadable file or a socket |
| Upload.WalkBelowOrigin | cmd/upload.go:87-89 | only the first call is for the origin itself, apart from the error for an unreadable origin |
| Upload.PackedTree | cmd/upload.go:78-122 | after a successful packing, every entry below the origin has its member in the archive, and every member comes from such an entry |
| Upload.MissingOrigin | cmd/upload.go:79-81 | a source directory that cannot be stat'ed fails the walk at once |
| Upload.HasParent | cmd/upload.go:78 | every entry below the origin lies in a readable directory one level up |
| Upload.DirectoryFirst | cmd/upload.go:78 | every entry below the origin is visited after its containing directory |
| Upload.SegLessIrreflexive | cmd/upload.go:78 | no path sorts before itself in path order |
| Upload.SegLessPrefix | cmd/upload.go:78 | a directory comes before everything below it, never after |
| Upload.Walk | cmd/upload.go:78 | filepath.WalkDir below an entry: its own callback, then for a readable directory its children's walks in listing order, and for an unreadable one a second callback with the error |
| Upload.WalkFrom | cmd/upload.go:78 | the walks of a directory's children from the i-th on, each re-rooted under the child's name |
| Upload.WalkOrigin | cmd/upload.go:78 | WalkDir from the source directory; a source that cannot be Lstat'ed gives one callback with the error |
| Upload.RootName | cmd/upload.go:72-76 | the archive's top-level name: Clean(root), or Base(Clean(dir)) when that is "." or "" |
| Upload.HeaderName | cmd/upload.go:101 | the header name: Join of the root name and the entry's relative path with "/" separators |
| Upload.DirName | cmd/upload.go:102-104 | a directory's header name gets a trailing "/" unless it already ends in one |
| Upload.Member | cmd/upload.go:101-112 | the member for an entry below the origin: a directory header, a regular file with its mode and bytes, or a header with no payload for anything else |
| Upload.Emit | cmd/upload.go:78-121 | what one callback contributes: nothing for the origin, the entry's member otherwise; an error passed in, a socket and a file that cannot be read fail |
| Upload.Packed | cmd/upload.go:78-122 | the members written by a run of callbacks, in order, stopped by the first error |
| Client.DownloadURL | internal/repository/client.go:37-38 | the URL is the base URL, "/packages/", the package name and "/download" |
| Client.DownloadURLInjective | internal/repository/client.go:37-38 | different package names give different URLs |
| Client.Excerpt | internal/repository/client.go:55 | the excerpt is a prefix of the body, of length min(|body|, 4096) |
| Client.TargetPath | internal/repository/client.go:108 | where a member is written: Join(dest, Clean(name)) |
| Client.ExtractEntryOn | internal/repository/client.go:110-137 | the state and error after one member: MkdirAll with the header's mode for a directory, file placement for a regular file, no change for anything else |
| Client.PlaceFileOn | internal/repository/client.go:117-132 | the state and error after a regular member: MkdirAll of Dir(target) with 0755, the truncating open with the header's mode, then the payload appended, or a write error when the payload ended early |
| Client.PlaceAt | internal/repository/client.go:117-132 | the same placement, once the parent and the target are resolved to file-system paths |
| Client.ExtractAll | internal/repository/client.go:97-138 | the state and error after the complete members, in stream order, stopped by the first error |
| Client.ExtractTailOn | internal/repository/client.go:97-132 | how the loop ends: io.EOF changes nothing, a bad header is the "read tar entry" error, and a short payload is written partially and reported as a write error |
| Client.UnpackOn | internal/repository/client.go:76-138 | after CreateTemp: a body that did not arrive whole is the "save archive" error, one gzip cannot read is the "create gzip reader" error, otherwise the complete members and then the stream's end |
| Client.DownloadOn | internal/repository/client.go:33-142 | the state and error of a whole download for a reply: the request and transport errors, the status gate with its excerpt, MkdirAll of dest with 0755, CreateTemp at the spool path, the body written and unpacked, and the removal of the temporary file, whose error is ignored |
| Client.Client.constructor | internal/repository/client.go:20-27 | the client keeps the base URL |
| Client.Client.Download | internal/repository/client.go:33-142 | the new file system and the error are those of the download specification applied to the server's reply for the package URL |
| Client.Unpack | internal/repository/client.go:76-138 | the new state and error are those of unpacking the spooled body |
| Client.ExtractEntries | internal/repository/client.go:97-138 | the loop over the complete members leaves the state of extracting them in stream order, stopping at the first error |
| Client.ExtractEntry | internal/repository/client.go:107-137 | one member is dispatched by its kind: MkdirAll with its mode, file placement, or nothing |
| Client.ExtractTail | internal/repository/client.go:98-105 | the end of the stream: nothing at the archive's end, a read error for a bad header, and a short copy reported as a write error after the partial file is written |
| Client.PlaceFile | internal/repository/client.go:117-132 | a regular member: the parent created with 0755, the target opened with truncation and the header's mode, and the payload copied |
| Client.ExtractAllStops | internal/repository/client.go:103-131 | after the first failing member no later member is extracted |
| Client.GateFirst | internal/repository/client.go:41-63 | nothing changes unless the reply is a 2xx response and dest is non-empty; success needs a 2xx reply whose body arrived whole; any other status gives that status with the excerpt, a prefix of the body |
| Client.PlaceFileKeepsFile | internal/repository/client.go:117-132 | placing a file never turns an existing file into something else |
| Client.PlaceAtKeepsFile | internal/repository/client.go:117-132 | the same, for the placement at resolved paths |
| Client.EntryKeepsFile | internal/repository/client.go:110-137 | extracting one member never turns an existing file into something else |
| Client.ExtractAllKeepsFile | internal/repository/client.go:97-138 | the same for the whole loop |
| Client.UnpackKeepsFile | internal/repository/client.go:76-138 | the same for the whole unpacking |
| Client.SpoolRemoved | internal/repository/client.go:66-73 | on success and on every error raised after CreateTemp succeeded, the temporary file is gone; a spool path that did not exist before and is not an ancestor of dest is never left behind |
| Client.DirResolves | internal/repository/client.go:119 | the directory of a clean target resolves to its parent, or to the target itself for a root or "." |
| Client.PlaceFileTidy | internal/repository/client.go:117-132 | placing a file keeps every entry inside a directory |
| Client.PlaceAtTidy | internal/repository/client.go:117-132 | the same, for the placement at resolved paths |
| Client.EntryTidy | internal/repository/client.go:110-137 | extracting a member keeps every entry inside a directory |
| Client.PlaceFileResult | internal/repository/client.go:117-132 | the file is opened iff its parent can be created, it is not a directory and it is not refused; then it holds exactly the payload (prior content truncated), keeps an existing file's mode or takes the header's, and its parent is a directory; otherwise only the MkdirAll happened |
| Client.PlaceAtResult | internal/repository/client.go:117-132 | the same, for the placement at resolved paths |
| Client.DirectoryPlaced | internal/repository/client.go:111-115 | a directory member succeeds iff its path can be created; then the target and all its ancestors are directories, and the same member again, with any mode, changes nothing |
| Client.ExtractAllTidy | internal/repository/client.go:97-138 | the loop keeps every entry inside a directory |
| Client.ExtractAllFirstFailure | internal/repository/client.go:103-131 | a failed extraction is the failure of its first failing member, with the earlier members extracted |
| Client.ExtractAllPrefixes | internal/repository/client.go:97-138 | a successful extraction succeeds on each prefix of the members |
| Client.TargetUnderDest | internal/repository/client.go:107-108 | for a name whose cleaned form does not start with "..", the target is clean and lies under dest: dest's parts followed by the name's, with an absolute name re-rooted |
| Client.TargetEscapes | internal/repository/client.go:107-108 | "../etc" under "/srv" lands at "/etc", outside dest: there is no containment check |
| Client.EntryConfined | internal/repository/client.go:107-137 | a member whose name does not climb out removes nothing and changes only entries below dest |
| Client.MkdirAllConfined | internal/repository/client.go:113 | MkdirAll of a path under an existing directory only adds entries below it |
| Client.PlaceAtConfined | internal/repository/client.go:117-132 | placing a file under an existing directory changes only entries below it |
| Client.EntryKeepsDirectory | internal/repository/client.go:110-137 | extracting a member never removes a directory |
| Client.PlaceAtKeepsDirectory | internal/repository/client.go:117-132 | placing a file never removes a directory |
| Client.ExtractAllKeepsDirectory | internal/repository/client.go:97-138 | the loop never removes a directory |
| Client.ExtractAllConfined | internal/repository/client.go:97-138 | members whose names do not climb out change only entries below dest, and remove nothing |
| Client.UnpackConfined | internal/repository/client.go:88-138 | the same for the unpacking, partial last file included |
| Client.CreateExclTidy | internal/repository/client.go:66 | creating the temporary file keeps every entry inside a directory |
| Client.DownloadConfined | internal/repository/client.go:33-142 | when no member name climbs out, a download removes nothing and changes only dest, its ancestors and entries below it |
| Fs.FileMode | internal/repository/client.go:113 | os.FileMode of a header mode is its value modulo 2^32 |
| Fs.StatErr | cmd/init.go:43 | os.Stat's error: a refusal for a hidden path, none for a present one, the parent's error when the parent is not a directory, otherwise "not exist" |
| Fs.MkdirAllOn | internal/repository/client.go:61 | os.MkdirAll: no change for an existing directory, ENOTDIR for a file, otherwise the parent first and then the directory itself unless it is refused |
| Fs.OpenTruncOn | internal/repository/client.go:123 | os.OpenFile with O_CREATE, O_WRONLY and O_TRUNC: an existing file is emptied and keeps its mode, a new one gets the given mode; a directory, a parent that is not a directory and a refusal fail with no change |
| Fs.CreateExclOn | internal/repository/client.go:66 | os.CreateTemp's exclusive open: it fails when the path exists, its parent is not a directory or it is refused, and otherwise creates an empty file with mode 0600 |
| Fs.RemoveOn | internal/repository/client.go:72 | os.Remove: it fails for a missing path and for a directory with entries below it, and otherwise removes the entry |
| Fs.FileSystem.Stat | cmd/init.go:43 | os.Stat reports its error for the path |
| Fs.FileSystem.Mkdir | internal/repository/client.go:61 | os.Mkdir of one directory |
| Fs.FileSystem.MkdirAll | internal/repository/client.go:61 | os.MkdirAll: present directories stay, missing ancestors are created first, a file in the way fails |
| Fs.FileSystem.OpenTrunc | internal/repository/client.go:123 | os.OpenFile with O_CREATE and O_TRUNC |
| Fs.FileSystem.Write | internal/repository/client.go:128 | writing appends to the open file |
| Fs.FileSystem.CreateExcl | internal/repository/client.go:66 | os.CreateTemp's exclusive create with mode 0600 |
| Fs.FileSystem.Remove | internal/repository/client.go:72 | os.Remove of the temporary file |
| Fs.MkdirAllMakesPath | internal/repository/client.go:113 | after a successful MkdirAll the path is a directory |
| Fs.MkdirAllIdempotent | internal/repository/client.go:113 | a second MkdirAll of the same path, with any mode, changes nothing and succeeds |
| Fs.DirectoryAncestors | internal/repository/client.go:113 | in a well-formed tree every ancestor of a directory is a directory |
| Fs.MkdirAllMakesDirs | internal/repository/client.go:113 | after a successful MkdirAll the path and all its ancestors are directories |
| Fs.MkdirAllFrame | internal/repository/client.go:113 | MkdirAll keeps every existing entry and adds only directories with the given mode on the path's ancestors |
| Fs.MkdirAllSucceeds | internal/repository/client.go:113 | MkdirAll succeeds iff no file is in the way and no missing directory is refused |
| Fs.TidyUpdate | internal/repository/client.go:123 | writing an entry into an existing directory keeps the tree well formed |
| Fs.MkdirAllTidy | internal/repository/client.go:113 | MkdirAll keeps the tree well formed |
| Fs.OpenTruncTidy | internal/repository/client.go:123 | a truncating open keeps the tree well formed |
| Fs.OpenTruncResult | internal/repository/client.go:123 | the open succeeds iff the path is not a directory, its parent is one and it is not refused; the file is then empty with its old mode or the new one; a failure changes nothing |
| Fs.AppendTidy | internal/repository/client.go:128 | writing into a file keeps the tree well formed |
| Paths.Pieces | internal/repository/client.go:108 | the pieces between separators contain none and join back to the string |
| Paths.Clean | internal/repository/client.go:108 | filepath.Clean: a leading "/" for a rooted path, then its cleaned parts joined by "/"; "." when nothing is left |
| Paths.Join | internal/repository/client.go:108 | filepath.Join of two elements: Clean(a + "/" + b), an empty element skipped, "" when both are empty |
| Paths.Base | cmd/init.go:55 | filepath.Base: the last element once trailing separators are stripped, "/" for a root, "." for "" |
| Paths.Dir | internal/repository/client.go:119 | filepath.Dir: Clean of everything up to the last separator, "." when there is none |
| Paths.PiecesOfJoin | cmd/upload.go:101 | splitting a joined list of separator-free names gives the list back |
| Paths.CleanShape | internal/repository/client.go:108 | Clean keeps rootedness, its result's parts are the cleaned parts and it is never empty |
| Paths.CleanIdempotent | internal/repository/client.go:108 | cleaning twice is cleaning once |
| Paths.TrailingSeparator | cmd/upload.go:102-104 | a trailing "/" does not change what a path cleans to |
| Paths.JoinParts | internal/repository/client.go:108 | Join keeps the first path's rootedness and cleans the second's parts onto the first's |
| Paths.JoinStaysUnder | internal/repository/client.go:108 | joining a cleaned name that does not climb out appends its plain parts to dest's |
| Paths.JoinNames | cmd/upload.go:101 | joining plain names to a clean root is the root, "/" and the names, with "." and "/" handled |
| Paths.BaseOfCleanParts | cmd/upload.go:75 | the base of a cleaned path is its last part |
| Paths.BaseOfCleanRoot | cmd/upload.go:75 | the base of a cleaned root path is "/" |
| Paths.BaseOfCleanDot | cmd/upload.go:75 | the base of a cleaned path with no parts is "." |
| Paths.CleanOfEmpty | cmd/upload.go:73-74 | the empty string cleans to ".", so an empty root falls back like "." |
| Paths.BaseOfCleanIsClean | cmd/upload.go:75 | the base name of a cleaned directory is itself clean |
| Paths.DirOfClean | internal/repository/client.go:119 | Dir of a cleaned path drops its last part |
| Paths.DirOfCleanEmpty | internal/repository/client.go:119 | Dir of a cleaned path with no parts has none either |
| Strings.FormatOne | internal/repository/client.go:37 | Sprintf with one %s puts the argument between the literal pieces |
| Strings.FormatTwo | cmd/init.go:65 | Sprintf with two %s verbs puts the arguments between the literal pieces |
| Strings.JoinConcat | cmd/upload.go:65 | joining two lists joins their joins with the separator |
| Init.GetUsername | cmd/init.go:24-39 | success iff some candidate (OS user, $USER, $USERNAME) is non-empty, with the first non-empty one; otherwise the "failed to get username" error |
| Init.Author | cmd/init.go:57-60 | the author written: the username, or "" when getUsername fails |
| Init.Escape | cmd/init.go:62-63 | the escaped text is longer by the number of quotes, and starts with `\"` for a quote and with the character itself otherwise |
| Init.UnescapeEscape | cmd/init.go:62-63 | reading the escapes back gives the original text |
| Init.EscapeInjective | cmd/init.go:62-63 | different texts escape differently |
| Init.EscapeWithoutQuotes | cmd/init.go:62-63 | text without quotes is unchanged |
| Init.EscapedQuotesFollowBackslash | cmd/init.go:62-63 | every quote of an escaped text directly follows a backslash |
| Init.ManifestContent | cmd/init.go:16-20 | the manifest is the template with the escaped name in the first line and the escaped author in the last, version "0.0.0" and an empty description |
| Init.ContentNamesPackage | cmd/init_test.go:33 | the manifest begins with `name: "<name>"` for a name without quotes |
| Init.ContentRoundTrip | cmd/init.go:62-65 | name and author can be read back from their places in the manifest |
| Init.EncodeChar | cmd/init.go:68 | a character is written as one to four UTF-8 bytes, ASCII as itself |
| Init.Encode | cmd/init.go:68 | the bytes of a text are at least as many as its characters |
| Init.EncodeAscii | cmd/init.go:68 | ASCII text is written one byte per character |
| Init.InitPackage | cmd/init.go:41-73 | the new file system and the error are those of the initialisation specification |
| Init.InitOn | cmd/init.go:41-73 | the state and error of initPackage: the stat gate, the working directory, the truncating open with 0644, and the encoded manifest written |
| Init.ManifestPathShape | cmd/init.go:43 | package.yml is a regular name directly in the working directory, which always exists |
| Init.ManifestPathResolves | cmd/init.go:14 | the name package.yml resolves to the path written |
| Init.InitRefuses | cmd/init.go:43-47 | an error writes nothing; a visible existing manifest gives ErrManifestAlreadyExists; a refused stat is reported with its cause |
| Init.InitWrites | cmd/init.go:41-73 | success iff package.yml is absent, visible to stat, creatable, and the working directory is known |
| Init.InitContent | cmd/init.go:55-68 | on success package.yml alone is added, with mode 0644 and the encoded template filled with the escaped base name of the working directory and the escaped author |
| RoundTrip.EntryKeepsOther | internal/repository/client.go:110-137 | a member that is not a regular file at a path leaves that path's entry as it was |
| RoundTrip.ExtractAllSplit | internal/repository/client.go:97-138 | extracting two runs of members is extracting the first, then the second from there unless the first failed |
| RoundTrip.ExtractAllKeepsOther | internal/repository/client.go:97-138 | members none of which is a regular file at a path leave that path's entry as it was |
| RoundTrip.MemberTarget | internal/repository/client.go:108 | the member for a file at rel lands at dest's parts, the root name's parts and rel |
| RoundTrip.LandingInjective | cmd/upload.go:101 | different relative paths land in different places |
| RoundTrip.LaterMembersElsewhere | cmd/upload.go:101-121 | the members after an entry's own are for other paths |
| RoundTrip.OwnMemberPlaced | internal/repository/client.go:117-132 | once its member is extracted, a file holds that member's payload |
| RoundTrip.PlacedStays | internal/repository/client.go:97-138 | a path no later regular member targets keeps its entry to the end |
| RoundTrip.PackThenExtract | cmd/upload.go:71-123 | when the archive of a tree is extracted without error, each regular file of the tree holds its exact bytes at dest/rootName/rel |

## Left out

- Printing to standard output and the cobra command wiring (`uploadPackage`, `initCmd`, `init()` registrations) are not modelled; they hold no logic.
- `Client.Upload` is a stub that returns nil, and its caller in `cmd/upload.go` uses another signature, so there is no upload protocol to model.
- `cmd/download.go` and `cmd/root.go` are not part of this model; the first does not compile and the second only holds constants and wiring.
- HTTP is not modelled: the request, the 30-second timeout, context cancellation and the transport are the `server` parameter of `Client.Client.Download`. Its reply is malformed, unreachable, or a status with a body and a flag for whether the body arrived whole.
- The gzip and tar byte formats are not modelled: `decode` stands for what `gzip.NewReader` and `tar.Reader` make of the spooled bytes. It gives the complete members and how the stream ends.
- Client.Client.Download: the temporary file's random name is the `spool` parameter, and CreateTemp's retries on a name clash are not modelled.
- Client.Client.Download: the body is decoded from the bytes received, so an archive member that overwrites the spool while extraction runs does not change what is read.
- Client.Client.Download: the Seek back to the start of the temporary file is assumed to succeed; its "rewind archive" error is not modelled.
- Upload.Emit: the header, and any part of the payload, written to the tar writer before an Open or Copy failure is not modelled; on an error `Upload.AddDirToArchive` says nothing about what was written, and `Upload.ArchiveDirectory` discards it.
- Client.ExtractTail: the only write failure is a payload that ends early; a disk error during the copy is not modelled.
- Errors from Close calls are ignored in the source and not modelled.
- `os.MkdirAll("")` is modelled as failing with "no such file or directory", which is what the operating system reports.
- Real operating-system semantics are reduced to lexical paths: no umask, no permission bits enforced (refusals are the `denied` and `hidden` sets), no symlink resolution. The working directory is a separate namespace: a relative path and a rooted path never name the same entry, even when the working directory lies under the rooted one. So `Client.SpoolRemoved`'s condition that the spool is not an ancestor of dest is checked only within one namespace.
- File names are `string`, a sequence of Unicode scalar values, while Go strings and Linux names are arbitrary bytes: a name that is not valid UTF-8 is not representable. `Init.Encode` is `[]byte(content)` only for such valid text.
- The error messages of `Download` and `initPackage` are not modelled; the errors are datatypes carrying the same causes. The messages of `validateManifest` are (`Upload.Message`).
- YAML decoding is the `parse` parameter of `Upload.ValidateManifest`. Stat and read results are its `probe` parameter.
- The directory walk is a finite tree given as input, and lstat and readdir results are in the nodes. os/user, the environment and the working directory are parameters of `Init.InitPackage`.
- Init.InitPackage: the gap between the stat and the write (another process could create the file in between) is not modelled; the model is sequential.
- Upload.RootName: the test for an empty `rootName` at `cmd/upload.go:74` can never succeed because Clean never returns "" (`Paths.CleanShape`). It is kept in the function, but no property depends on it.
- RoundTrip.PackThenExtract: it assumes the root name does not climb out and the extraction succeeds, and it does not state the mode the file ends up with: an existing file keeps its own.
