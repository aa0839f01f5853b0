# clap, modelled in Dafny

`clap` concatenates the files under a directory tree into one output file.
Each included file becomes a block: a `=== <path> ===` line, the file's
bytes, then a blank line. An optional list of extension tokens (`go`, `.md`,
`TXT`, ...) restricts which files are included.

This project models the whole logic of `main.go` as pure Dafny:

- `ascii.dfy` (module `Ascii`): ASCII lower-casing, the model of
  `strings.ToLower`, and `strings.HasPrefix`.
- `filepath.dfy` (module `FilePath`): `filepath.Ext` on `/`-separated paths.
  It scans back from the end of the path. A separator stops the scan with
  no extension. The first `.` met starts the extension.
- `extensions.dfy` (module `Extensions`): `normalizeExtensions` (tokens to a
  filter) and `shouldPrintFile` (the inclusion test). `Filter.AcceptAll` is
  Go's nil map. `Filter.Keys` is a non-nil map; all its values are `true`,
  so it is a set of keys.
- `walk.dfy` (module `Walk`): the `filepath.Walk` callback and the fatal check
  after the walk. The walk is a fold over a given sequence of entries.
  `Visit` is the callback on one entry. `Run` is the fold. It ends as
  `Fatal` at the first access error, or as `Ok(output)` with the text the
  program would write. `Combine` is the same loop written with a string
  builder, as `main` does it.

Each operation has an independent partner stated without the callback:
- `HasAccessError` says when a run is fatal.
- `Included` and `Render` give the output as one block per readable, accepted
  file, in walk order.
- `Inert` names the entries that change nothing.
- `NoDotInLastElement` and the last-dot characterisation pin down `Ext`.

Two behaviours of `main.go` worth stating:
- Any access error reported to the callback is fatal, wherever it happens in
  the walk. The callback returns every non-nil error it gets, which stops
  the walk, and `main` then exits without writing (main.go:28-31, 54-57).
- The file's extension is only lower-cased, never given a dot. `Ext` already
  starts with a dot or is empty, so an extension-less file is never matched
  by a key filter (main.go:91).

## Model

| member | source | states |
|---|---|---|
| FilePath.Ext | main.go:91 | the extension is a suffix of the path; it is empty or starts with `.`; after its dot it holds no `.` and no `/` |
| FilePath.ExtEmptyIff | main.go:91 | the extension is empty exactly when the final path element contains no dot |
| FilePath.ExtLastDot | main.go:91 | when a dot has no other dot and no `/` after it, the extension is the suffix of the path from that dot |
| FilePath.ExtToLower | main.go:91 | lower-casing the path lower-cases its extension, so where the extension starts does not depend on letter case |
| Extensions.NormalizeToken | main.go:77-80 | every token's key starts with `.` and has no upper-case letter; its length is the token's length plus one for a missing dot |
| Extensions.KeySet | main.go:75-82 | the keys the loop inserts are exactly the keys of the tokens; they are all well-formed; there are at most as many keys as tokens |
| Extensions.NormalizeExtensions | main.go:70-83 | no token gives the nil (accept-all) filter, and only then; otherwise the key set is the set of the tokens' keys, non-empty and no larger than the token list, every key well-formed |
| Extensions.NormalizeFixedPoints | main.go:77-80 | normalising leaves a token unchanged exactly when it is already a key; normalising twice is normalising once |
| Extensions.NormalizeIgnoresDot | main.go:77-79 | a token without a leading dot and the same token with the dot prepended give the same key |
| Extensions.NormalizeIgnoresCase | main.go:80 | tokens equal up to letter case give the same key |
| Extensions.NormalizeExamples | main.go:77-80 | `go`, `.go`, `GO` and `.Go` all become `.go` |
| Extensions.NoTokensAcceptAll | main.go:87-90 | with no tokens the filter is nil and every path passes it |
| Extensions.ShouldPrintIff | main.go:87-92 | a path is included exactly when no token was given or some token's key equals the path's lower-cased extension |
| Extensions.NoDotNeverMatches | main.go:91-92 | a path whose final element has no dot is never included by a filter of well-formed keys |
| Extensions.ShouldPrintFile | main.go:87-93 | the nil filter passes every path; a well-formed key filter passes a path exactly when its final element has a last dot and the lower-cased suffix from that dot is a key |
| Extensions.KeyExtByLastDot | main.go:91-92 | a set of well-formed keys holds the path's lower-cased extension exactly when it holds the lower-cased suffix from the last dot of the final element |
| Extensions.LastDotOfKeyExt | main.go:91-92 | an extension whose lower-cased form is a key begins at the last dot of the final path element |
| Extensions.ShouldPrintIgnoresPathCase | main.go:91 | a path and its lower-cased form are included or excluded together |
| Walk.Block | main.go:45-49 | a block is `=== `, the path, ` ===` and a newline, the content unchanged, then two newlines; given the path's length, path and content can be read back from it |
| Walk.Visit | main.go:28-51 | the callback aborts exactly on an access error, skips exactly directories, rejected files and unreadable files, and otherwise emits the file's block |
| Walk.IncludedMembers | main.go:33-49 | a (path, content) pair is in the output list exactly when the entries hold that readable file and the filter accepts its path |
| Walk.WalkFromSpec | main.go:27-52 | from any point the walk is fatal exactly when some remaining entry is an access error; otherwise it appends the blocks of the included files to the text so far |
| Walk.Run | main.go:27-57 | an access error anywhere makes the run fatal, with no output; otherwise the output is one block per included file, in walk order |
| Walk.RunAppend | main.go:45-49 | one more entry appends exactly `=== path ===\n` + content + `\n\n` when it is a readable accepted file, and nothing otherwise |
| Walk.RunPrefix | main.go:45-49 | when a run succeeds, the run over any prefix of its entries also succeeds and its output is a prefix of the full output |
| Walk.InertEntriesIrrelevant | main.go:33-43 | directories, rejected files and unreadable files neither stop the walk nor change its output: removing them gives the same result |
| Walk.AcceptAllIncludesReadable | main.go:33-49 | with the accept-all filter the output holds exactly the readable files of the walk |
| Walk.Combine | main.go:25-57 | the builder loop is fatal exactly when an entry is an access error; otherwise it returns the rendered included files, which is the fold's result |
| Walk.RunExample | main.go:45-49 | a tree with `a.go` = `x` and `b.md` = `y`, filtered by `.go`, yields exactly `=== root/a.go ===\nx\n\n` |

## Left out

- Flag parsing, the usage message, the default output name `clap.file` and
  the exit codes (main.go:12-20, 56, 62): command-line plumbing.
- How `filepath.Walk` finds entries and in what order: the entry sequence is
  an input. Its order comes from the filesystem.
- `os.ReadFile`, `os.WriteFile`, the 0644 permissions and the failure of the
  final write (main.go:39, 59-63): I/O. Each read is given by the entry's
  `ReadResult`; `Ok(output)` is the text that would be written.
- `filepath.Join` of the root and the output name (main.go:59): library path
  cleaning whose source is not part of this model.
- Progress and error messages, including the byte size from `info.Size()`
  (main.go:29, 37, 41, 55, 61, 65): console output only.
- Ascii.ToLower: lower-cases ASCII letters only, because Go's Unicode case
  mapping is not modelled. For ASCII tokens and paths it agrees with
  `strings.ToLower`.
- FilePath.Ext: treats only `/` as a separator, because the model follows
  Unix paths. On Windows Go also stops at `\` and at a volume name.
- Paths and file contents are Dafny strings rather than byte slices; the
  block format is the same sequence of characters.
- A previous run's output file being included by a later run: it depends on
  filesystem state across runs, which an entry sequence of one run does not
  carry.
