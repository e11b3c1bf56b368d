# persistent-touch-id-sudo, modelled in Dafny

The program patches the sudo PAM configuration `/etc/pam.d/sudo` so that sudo
accepts Touch ID. First it scans the file line by line for `pam_tid.so`. If the
marker is on some line, it does nothing. Otherwise it writes a patched copy to
the staging file `/tmp/persistent-touch-id-sudo-pam`. The copy holds the
directive `auth       sufficient     pam_tid.so` as a new line. That line goes
after the first line when the first line contains `#` anywhere, and before it
otherwise. The program then copies the staging file back over the
configuration, line by line. If any `fopen` fails, the process exits with
status 1.

The model has three modules.

- `Lines` (lines.dfy) models the C library as the program uses it.
  - `Chunks(s)` is the sequence of chunks that repeated `getline` calls return from a stream holding `s`. Each chunk runs up to and including a newline. The last chunk may lack one.
  - `Contains` is `strstr(..) != NULL`.
  - `Concat` is what a run of `fputs` calls leaves in a stream.
  - Its lemmas show that `Chunks` and `Concat` are inverse bijections on sequences of the `getline` shape.
  - They also show that scanning chunk by chunk for a pattern without a newline is the same as searching the whole text. That is the `grep` the program replaces.
- `PamConfig` (pam_config.dfy) holds the marker, the directive, the comment marker, and `Patched`.
  - `Patched` is the sequence of lines written to the staging file.
  - Its lemmas cover where the line is inserted, that the input lines are kept in order, the empty input, the edge case of a header with no trailing newline, and that the output passes the marker check.
- `Patcher` (patcher.dfy) is a class `FileSystem`. Its state is a map from paths to contents plus the paths whose opens the operating system refuses.
  - It has one method per C function, each with that function's `while (getline(..))` loop.
  - Each method is proved against a ghost specification function: `OpenSpec`, `CopySpec`, `GenerateSpec`, `ConfigureSpec` or `RunSpec`.
  - These functions keep the order of the opens. A copy opens its source before it truncates its destination. Generation opens the configuration before the staging file.
  - Lemmas on `RunSpec` prove that the whole program is idempotent, counting both the files and the exit status. This holds on runs that die on an open as well.
  - Other lemmas prove that a failed run leaves the configuration alone, that no file other than the two is touched, and that a successful run leaves the marker in place unless the file was empty.

A `fopen(p, "r")` succeeds when `p` exists and is not refused for reading. A
`fopen(p, "w")` succeeds when `p` is not refused for writing, and it then
creates or truncates `p`. Reading a source starts only after both opens. So
`CopyFile(p, p)` leaves `p` empty, as the C code does.

Three behaviours of the code are kept as written:

- The test is "`#` anywhere on the first line", not "the first line is a comment".
- An empty configuration stays empty, with no directive added. A run on it therefore always takes the patch branch and writes empty files.
- A first line that contains `#` but ends without a newline has the directive glued onto it (`GluedHeader`). The configuration then carries the marker, but only inside a comment line.

The directive has the code's own spacing: `auth` + 7 spaces + `sufficient` + 5 spaces
+ `pam_tid.so` + newline. The header comment of src/main.c describes a `sed` that always inserts at line 1. The code instead
inserts after a first line that contains `#`, and the model follows the code.

## Model

| member | source | states |
|---|---|---|
| `Lines.LineEnd` | src/main.c:39 | a `getline` chunk is non-empty, has no newline before its end, and ends in a newline unless it reaches the end of the stream |
| `Lines.ChunksAreLines` | src/main.c:39 | every sequence `getline` yields has the chunk shape (`IsLines`) |
| `Lines.ConcatAppend` | src/main.c:68 | writing two runs of chunks writes their texts one after the other |
| `Lines.ConcatChunks` | src/main.c:67-69 | writing back every chunk read from a stream reproduces its bytes exactly |
| `Lines.ChunksConcat` | src/main.c:67-69 | reading back a written sequence of the chunk shape gives that same sequence |
| `Lines.ContainsInConcat` | src/main.c:41 | a pattern found in one written chunk is found in the written text |
| `Lines.OccursInFirstChunk` | src/main.c:41 | an occurrence of a pattern without a newline that starts in the first chunk lies wholly inside that chunk |
| `Lines.OccurrenceInOneChunk` | src/main.c:39-45 | an occurrence, in the text, of a pattern without a newline lies inside a single chunk |
| `Lines.ScanMatchesWholeText` | src/main.c:39-45 | the line-by-line scan finds a pattern without a newline if and only if the whole text contains it |
| `Lines.ContainsChar` | src/main.c:94 | looking for a one-character string is looking for that character |
| `PamConfig.HeaderTest` | src/main.c:94 | `strstr(line, "#")` succeeds exactly when the line holds the comment marker |
| `PamConfig.TidLineHasMarker` | src/main.c:78 | the directive contains the marker and no `#`, and the marker is non-empty without a newline |
| `PamConfig.PatchedInsertsOneLine` | src/main.c:90-106 | empty in gives empty out; otherwise one more line, the directive at index 1 after a `#` first line and 0 otherwise, and deleting it gives back the input in order |
| `PamConfig.PatchedKeepsLines` | src/main.c:103-105 | each input line appears unchanged in the output, shifted by one from the insertion point on |
| `PamConfig.PatchedAppend` | src/main.c:103-105 | after the first line, each further line read is appended to the output unchanged |
| `PamConfig.PatchedPrefixStep` | src/main.c:91-105 | what handling line i writes: the first line together with the directive, on the side the `#` test picks; any later line alone |
| `PamConfig.PatchedIsConfigured` | src/main.c:93-102 | the patch of a non-empty configuration has a line with the marker |
| `PamConfig.PatchedText` | src/main.c:93-105 | as text, the staging file is the first chunk + directive + rest when that chunk holds `#`, and otherwise the directive + the whole text |
| `PamConfig.PatchedFileIsConfigured` | src/main.c:90-106 | the patched file, read back line by line, passes the marker check if and only if the original was non-empty |
| `PamConfig.GluedHeader` | src/main.c:96-97 | a `#` header that is the whole file, with no newline, reads back as one line: header followed by the directive |
| `PamConfig.HeaderExample` | src/main.c:94-97 | a header comment stays above the directive, and the rest follows |
| `PamConfig.NoHeaderExample` | src/main.c:98-102 | with no header, the directive becomes the first line |
| `Patcher.RunIdempotent` | src/main.c:120-128 | running the program on its own result leaves the same files and exit status as one run |
| `Patcher.RunFailurePreservesConfiguration` | src/main.c:20-25 | a run that exits with status 1 changes no file but the staging file |
| `Patcher.RunTouchesOnlyTwoFiles` | src/main.c:114-117 | a run changes no file other than the configuration and the staging file |
| `Patcher.RunSuccessConfigures` | src/main.c:120-128 | after exit status 0 the configuration has the marker or is still empty; when patched, it equals the staging file and the patched text |
| `Patcher.FileSystem.OpenFileOrDie` | src/main.c:20-27 | an open fails exactly when `OpenSpec` says the path is missing or refused; opening for writing truncates |
| `Patcher.FileSystem.AppendText` | src/main.c:68 | `fputs` appends the text to the file and changes nothing else |
| `Patcher.FileSystem.IsPamAlreadyConfigured` | src/main.c:31-53 | no file changes; dies if the configuration cannot be opened; otherwise the verdict is whether some line has the marker, and the scan stops at the first such line |
| `Patcher.FileSystem.CopyFile` | src/main.c:57-73 | the new state is `CopySpec`: the source is opened before the destination is truncated, and on success the destination holds the source's bytes |
| `Patcher.FileSystem.GeneratePamConfig` | src/main.c:77-110 | the new state is `GenerateSpec`: the configuration is opened before the staging file, which then holds the patched text |
| `Patcher.FileSystem.ConfigurePam` | src/main.c:114-117 | generation followed by the copy back, stopping at the first failed open |
| `Patcher.FileSystem.Run` | src/main.c:120-128 | the exit status and final files are `RunSpec` of the initial files: a no-op when configured, otherwise generate then copy |

## Left out

- Real `fopen`, `fclose`, `getline` and `fputs` are not modelled. Files are entries of a map, and which opens fail is given as data (`Access`). The two fixed paths are kept only as names.
- `fclose` is not modelled. The model has no buffered output, so closing has no visible effect here.
- Read errors are not modelled. `getline` also returns -1 on a read error, not only at end of file, and the model assumes reads do not fail.
- Messages on standard output and standard error are left out. They are informational only.
- The buffer growth and `free` of `getline` are left out. They are memory plumbing with no visible effect.
- Embedded NUL bytes are not modelled. Lines are assumed to contain none, so `strstr` and `fputs` see the whole chunk.
- Crashes part-way through and concurrent changes to the files by other processes are not modelled. The copy-based replacement is not atomic, and the model treats each run as one uninterrupted sequence of steps.
- Whether `pam_tid.so` is installed or works is not modelled. It is an external collaborator.
- Patcher.FileSystem.IsPamAlreadyConfigured: reports the number of lines read as a ghost out-parameter only, because the C function returns just the flag.
