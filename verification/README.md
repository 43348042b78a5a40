# i18n-migrate, modelled in Dafny

i18n-migrate copies localisation entries (lines such as `GREETING=hello`)
from source files into destination files. It re-orders and filters them by
an ordered key list. The Go program walks the source directories and starts
one scanner goroutine per file. Each scanner sends a match record
`(key, line, base name)` over one unbuffered channel for every pair of a line
and a non-empty key-list entry that the line begins with. A line that matches
two keys, or a key listed twice, sends several records. A single consumer folds the records into a table
`filename -> key -> line`, where the last write wins. Finally, for every
filename in the table, a file is written by walking the key list in order:
- a blank entry or a comment entry (starting with `#`) is copied through;
- any other key writes its value when the file has one, and nothing when it
  does not.

This project models that core: the scan, the fan-in, the consume loop and the
write phase. It then proves what the pipeline guarantees about its output.

Modules, in pipeline order:

- `Text`: `strings.HasPrefix`, and the text written by one `fmt.Sprintln` per
  line. It also has a line splitter, so that written files can be shown to
  read back as their lines.
- `Seqs`: associativity of concatenation, used by the append lemmas.
- `Items`: the `I18nItem` record and the per-file filter over a record
  sequence.
- `Scanner`: `searchInFile`. `ScanLine` and `ScanFile` are the reference
  definitions. `SearchLine` and `SearchInFile` are the loops written as the
  source writes them.
- `Fanin`: the goroutines and the channel. Each worker holds the records of
  one file in its own order. A schedule of worker indices decides whose send
  is received next; when the schedule runs out, the remaining records arrive
  worker by worker. Every interleaving the Go runtime can produce is the
  result of some schedule (`Fanin.RunIsSchedule`). So a theorem proved for
  every schedule holds for every run.
- `Aggregator`: the consume loop: `Insert`, `Aggregate`, and `Consume`
  written the Go way.
- `Writer`: the write phase: `RenderLines`, `Render`, `WriteFiles`, and the
  `WriteFile` loop.
- `Migrator`: the whole of `Migrator.Run` with the I/O taken out. Source
  files arrive as base names with their lines, and the result is a map from
  destination file name to the text written there.
- `Scenarios`: concrete runs. These are:
  - the greeting example;
  - the same example with a source line that begins with the comment key;
  - two source files that share a base name and race for the same slot.

The scan skips only empty keys (main.go:108), not comment keys, so a `#` key
is scanned like any other. A source line beginning with it fills a slot in the
table. The writer never looks that slot up, because it copies comment entries
through (main.go:84-87). `Writer.CommentRecordsNeverWritten` and
`Scenarios.CommentKeyScenario` state this.

## Model

| member | source | states |
|---|---|---|
| Text.SplitUnlines | main.go:85-91 | Reading a written file back line by line gives exactly the lines written by the `Sprintln` calls, provided that no line holds a line break. Reading back splits at `\n` only; Go's `bufio.ScanLines` also drops a trailing `\r`, so a value ending in `\r` would read back differently there. |
| Scanner.ScanLine | main.go:107-118 | A line yields at most one record per key-list entry. Which records come out is stated by `Scanner.ScanLineMembership`. |
| Scanner.ScanLineCount | main.go:107-118 | A record `(k, line, f)` comes out of a line exactly as many times as `k` occurs in the key list, provided `k` is non-empty and a prefix of the line; otherwise it never comes out. Duplicate keys give duplicate records. |
| Scanner.ScanLineMembership | main.go:107-118 | A record comes out of a line if and only if its key is a listed non-empty prefix of the line, its value is the line, and its file name is the file's. |
| Scanner.ScanLineAppend | main.go:107 | The records of a line follow key-list order: splitting the key list splits the records the same way. |
| Scanner.ScanFileAppend | main.go:106 | Records follow line order: all records of earlier lines come before those of later lines. |
| Scanner.ScanFileMembership | main.go:106-120 | A record comes out of a file if and only if its value is one of the file's lines, its key is a listed non-empty prefix of that line, and its file name is the file's base name. |
| Scanner.ScanFileOwnName | main.go:115 | Every record of a file carries that file's own base name. |
| Scanner.SearchLine | main.go:107-119 | The inner loop (skip empty keys, send on prefix match) computes exactly the records `ScanLine` defines, in the same order. |
| Scanner.SearchInFile | main.go:106-120 | The scanning loop computes exactly the record sequence `ScanFile` defines. |
| Items.FileItemsMembership | main.go:67-71 | Filtering by file name keeps a record if and only if it is in the sequence and bound for that file. |
| Fanin.Send | main.go:117 | One send keeps the number of workers and hands over at most one record. That no record is lost or duplicated is stated by `Fanin.SendMoves`. |
| Fanin.ArrivalsPermutation | main.go:49-63 | Whatever the interleaving, the consumer receives every record sent by every scanner exactly once: the arrival order is a permutation of all scanners' records. |
| Fanin.RunIsSchedule | main.go:49-63 | Every run of the channel, in which each scanner's records are received in its own send order, is what some schedule delivers: replaying the run's senders as the schedule yields exactly the run's records, with none left over. |
| Fanin.ArrivalsKeepFileOrder | main.go:53 | If only one scanner produces records for a file, those records reach the consumer in that scanner's own order, whatever the interleaving. |
| Aggregator.Insert | main.go:67-71 | One turn of the consume loop adds the record's file to the table, or keeps it there, and stores the record's value under its key. |
| Aggregator.InsertKeepsOtherSlots | main.go:67-71 | One turn of the consume loop leaves every other slot `(file, key)` as it was. |
| Aggregator.AggregateFromAppend | main.go:66-72 | The consumer keeps no state besides the table: folding two batches one after the other equals folding them as one sequence. |
| Aggregator.LastWriteWinsFrom | main.go:66-72 | Starting from any table, a slot is filled afterwards if and only if it was filled before or some record writes it. The last such record decides its value, and an unwritten slot keeps its old value. |
| Aggregator.LastWriteWins | main.go:66-72 | After the consume loop, a slot is filled if and only if some record writes it, and it holds the value of the last such record. |
| Aggregator.ValueFromSomeRecord | main.go:71 | A filled slot holds the value of some record for exactly that slot: values are never merged or invented. |
| Aggregator.AggregateFiles | main.go:67-70 | The table has a sub-map for exactly the file names some record carries. |
| Aggregator.SubMapsNonEmpty | main.go:66-78 | No sub-map is ever empty, so the skip of empty sub-maps never fires. |
| Aggregator.AggregatePerFile | main.go:66-72 | A file's sub-map depends only on that file's records, taken in arrival order. Records for other files may be interleaved in any way. |
| Aggregator.Consume | main.go:66-72 | The consume loop, written as the source writes it (look up, create on first sight, store), builds exactly the table `Aggregate` defines. |
| Writer.RenderLines | main.go:83-93 | An output file has at most one line per key-list entry. Which lines are written is stated by `Writer.RenderLinesSound`, `Writer.RenderLinesComplete` and `Writer.RenderLinesCount`. |
| Writer.RenderLinesSound | main.go:83-93 | Nothing unlisted is written: every output line is either a blank or comment entry of the key list, or the value of a listed active key. |
| Writer.RenderLinesComplete | main.go:84-91 | Nothing listed is lost: every blank or comment entry is written, and so is the value of every listed active key that has one. |
| Writer.RenderLinesCount | main.go:83-93 | The number of lines written equals the number of key-list positions holding either a blank or comment entry or an active key present in the sub-map. |
| Writer.RenderLinesAppend | main.go:83 | Output follows key-list order: splitting the key list splits the output the same way. |
| Writer.RenderLinesOnlyReadsListedKeys | main.go:89 | The output depends only on the key list and on the sub-map's entries for listed active keys. It does not depend on arrival order or on entries the writer never looks up. |
| Writer.CommentRecordsNeverWritten | main.go:84-87 | Records stored under comment keys (the scan does not skip them) never reach the output. |
| Writer.RenderReadsBack | main.go:83-93 | A written file, read back line by line, gives exactly its rendered lines, provided that no key or value holds a line break. |
| Writer.RenderStep | main.go:84-92 | One key-list entry adds its own text (the entry, its value, or nothing), each line followed by a line break. |
| Writer.WriteFile | main.go:83-93 | The write loop for one file produces exactly the text `Render` defines. |
| Migrator.Streams | main.go:49-56 | One scanner per source file, each holding that file's records. Their contents are stated by `Scanner.ScanFileMembership` and `Migrator.ArrivalFromSource`. |
| Migrator.ArrivalFromSource | main.go:49-120 | Whatever the interleaving, a record is received if and only if some source file with that base name has that line, and its key is a listed non-empty prefix of the line. |
| Migrator.RunFiles | main.go:66-79 | Whatever the interleaving, a file is written for exactly the base names of source files with at least one matching line. |
| Migrator.CollectValueFromSource | main.go:66-72 | Whatever the interleaving, a filled slot `(f, k)` holds a line of some source file named `f`. `k` is a listed non-empty key that the line begins with. |
| Migrator.LineWrites | main.go:107-118 | A line's records write slot `(f, k)` exactly when `k` is a listed non-empty prefix of the line, and the last of them carries the line itself. |
| Migrator.AppendLine | main.go:106-118 | Scanning one more line sets slot `(f, k)` to that line when `k` selects it, and leaves the slot untouched otherwise. |
| Migrator.SingleFileLastLine | main.go:106-120 | For a file scanned alone, slot `(f, k)` is filled if and only if `k` is a listed non-empty key some line begins with. It holds the file's last such line. |
| Migrator.DistinctNamesCollect | main.go:49-72 | When no two source files share a base name, a file's sub-map is the one the file builds when scanned alone, for every interleaving. |
| Migrator.DistinctNamesSameOutput | main.go:49-93 | When no two source files share a base name, the text written for a file is the same under any two interleavings. |
| Migrator.RunDeterministic | main.go:43-95 | When no two source files share a base name, the whole output does not depend on the interleaving. |
| Scenarios.GreetingScenario | main.go:43-95 | The greeting example. `a.txt` holds `GREETING=hello` and `FAREWELL=bye`, and the key list is `["", "# greetings", "GREETING", "FAREWELL", "UNUSED"]`. Under every interleaving, exactly `a.txt` is written: a blank line, `# greetings`, `GREETING=hello`, `FAREWELL=bye`. |
| Scenarios.CommentKeyScenario | main.go:107-118 | A source line `# greetings from a.txt` fills the `# greetings` slot of the table, yet the output is the same as without it. |
| Scenarios.TwoWorkers | main.go:49-63 | Two scanners with one record each: by default the records arrive in scanner order, and the order flips when the second scanner sends first. |
| Scenarios.SecondWins | main.go:71 | Of two records for one slot, the second decides the slot's value. |
| Scenarios.SharedNameRace | main.go:66-72 | Two source files with the same base name race for one slot, and the record that arrives last is written. Two interleavings give two different outputs whenever the two lines differ. |

## Left out

- Goroutines, `sync.WaitGroup` and the channel (main.go:49-63, 98, 117) are replaced by the schedule model of `Fanin`. Blocking, the closing goroutine and `wg.Wait` are not modelled; every scanner is assumed to finish.
- `filepath.Walk` (main.go:50-56) is not modelled: the sources arrive as a list of files. This leaves out two things: the nil `FileInfo` dereference when the walk reports an error, and the skip of directories.
- `os.Open` failure in `searchInFile` (main.go:99-104), which silently yields no records. A file that cannot be opened can be modelled as a file with no lines.
- `os.Create`, `WriteString`, `Close` and `check`/`panic` (main.go:79-81, 85, 91, 132-136). The model yields the text each file would receive; errors while creating or writing files are not modelled.
- `bufio.Scanner` line splitting and its 64 KiB token limit (main.go:105-106), and `readKeys` (main.go:123-130). Files and the key list arrive as sequences of lines. `Text.SplitLines` is used only to show that written text reads back as its lines; it splits at `\n` only and keeps a trailing `\r`, which Go's line scanner drops.
- `filepath.Base` (main.go:115): `SourceFile.name` is already the base name.
- Go map iteration order in the write phase (main.go:75) is not modelled. `WriteFiles` yields a map from file name to contents, so the order in which files are written is unobservable in the model.
- The command line: `main`, `checkFilesExists`, `NewMigrator` (main.go:32-41, 138-171).
- Text.HasPrefix: compares characters, where Go's `strings.HasPrefix` compares bytes. For valid UTF-8 input the two agree, so the model does not distinguish them.
- Items.FileItems: the function's contract states only a length bound. Which records are kept is stated by `Items.FileItemsMembership`, `Items.FileItemsAll` and `Items.FileItemsNone`.
- Scanner.ScanFile: the function carries no contract of its own. Membership and own name are stated by `Scanner.ScanFileMembership` and `Scanner.ScanFileOwnName`.
- Text.Unlines: carries no contract of its own. That it reads back as its lines is stated by `Text.SplitUnlines`, and `Text.UnlinesAppend` shows it is written line by line.
- Aggregator.AggregateFrom, Aggregator.Aggregate: carry no contract of their own. What the table holds is stated by `Aggregator.LastWriteWinsFrom`, `Aggregator.LastWriteWins`, `Aggregator.ValueFromSomeRecord`, `Aggregator.AggregateFiles` and `Aggregator.SubMapsNonEmpty`.
- Fanin.Deliver, Fanin.Arrivals: carry no contract of their own. What arrives is stated by `Fanin.ArrivalsPermutation`, `Fanin.ArrivalsKeepFileOrder` and `Fanin.RunIsSchedule`.
- Writer.Render: carries no contract of its own. It is the `Sprintln` text of `Writer.RenderLines`, as `Writer.RenderStep` and `Writer.RenderReadsBack` state.
- Writer.WriteFiles: carries no contract of its own. Which files are written is stated by `Migrator.RunFiles` and `Aggregator.SubMapsNonEmpty`, and each file's text by `Writer.WriteFile`.
- Migrator.Collect, Migrator.Run: carry no contract of their own. Their outputs are stated by `Migrator.ArrivalFromSource`, `Migrator.CollectValueFromSource`, `Migrator.RunFiles`, `Migrator.DistinctNamesCollect` and `Migrator.RunDeterministic`.
- Migrator.CollectValueFromSource: states that a filled slot holds a selected line of some file with that name, not that it is that file's last such line. The stronger fact holds in general, because each scanner's sends keep their order, but it is proved only when the base names are distinct (`Migrator.DistinctNamesCollect` with `Migrator.SingleFileLastLine`).
- Scenarios.SharedNameRace: stated for any active key and any two lines that key selects, rather than for one literal pair of lines.
