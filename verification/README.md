# sx8000 export core in Dafny

sx8000 is a command-line tool. It runs one JDBC query and writes the result
set to a CSV file. It can compress the file and write a checksum file next
to it. This project models the decisions that sit inside that I/O plumbing
and proves what they guarantee:

- **Flush cadence** (`Flush`). `shouldFlush(count, flush)` is modelled over
  Java's `long`/`int` ranges and Java's truncating `%` (`JavaNum`). The
  module also computes the counters at which the row loop flushes.
- **Compression choice** (`Compression`). `wrapOutput` picks one of
  Deflate, Gzip, Bzip2 or Identity from the file name of the output path.
- **Statement classification** (`Query`). `readQuery` decides whether its
  argument names a classpath resource, names a file, or is the SQL itself.
  The decision follows the whole-string semantics of `java.util.regex`.
- **Checksum file naming** (`Checksum`). The sibling path is the output
  path, a dot, and the algorithm name with every `-` removed, lower-cased.
- **The export run** (`Export`). It models the `execute` method:
  - the optional header row of column labels;
  - one row per cursor row, with SQL NULL as an absent field;
  - a checkpoint whenever `shouldFlush` holds for the incremented counter;
  - the final flush;
  - the checksum file, produced only when checksums are on and the output
    block ended without an exception.

  The CSV writer is an append-only trace of events. A cursor failure is an
  optional index of the `rs.next()` call that throws.
- **Single-character options** (`CharacterConverter`). `convert` accepts a
  value exactly when its Java length, counted in UTF-16 code units, is one.

`Wrappers` holds `Option` and `Result`. `Seqs` holds one shared sequence
fact.

This version of the tool has no null-replacement, boolean-as-integer,
array-bracket, timestamp-pattern or quote-all option, and no standard-output
destination. A cell is either absent or the value's `toString()`, and files
are the only destination.

## Model

| member | source | states |
|---|---|---|
| JavaNum.Rem | src/main/java/com/after_sunrise/sx8000/Main.java:270 | Java's `%` for a positive divisor: the remainder differs from the dividend by a multiple of the divisor, is strictly smaller in magnitude than the divisor, and takes the sign of the dividend. These three facts determine Java's value. |
| JavaNum.RemZeroIffDivides | src/main/java/com/after_sunrise/sx8000/Main.java:270 | Java's truncating remainder is zero exactly when the mathematical (Euclidean) remainder is zero, so divisibility does not depend on which `%` is meant. |
| Flush.ShouldFlush | src/main/java/com/after_sunrise/sx8000/Main.java:268-272 | A flush is due exactly when the interval is positive and divides the counter. A non-positive interval never flushes, whatever the counter. |
| Flush.ShouldFlushExamples | src/test/java/com/after_sunrise/sx8000/MainTest.java:121-131 | The nine unit-test cases: interval 0 never fires, interval 1 always fires, and interval 2 fires on 0 and 4 but not on 7. |
| Flush.Checkpoints | src/main/java/com/after_sunrise/sx8000/Main.java:158-182 | Over `n` rows, the checkpoint counters are exactly the `k` in `1..n` that the interval divides, with 0 never included. They come in increasing order and there are `n / flush` of them, or none when the interval is not positive. |
| Flush.CheckpointsExtremes | src/main/java/com/after_sunrise/sx8000/Main.java:174-176 | Interval 1 checkpoints after every row (counters `1..n`). Interval 0 never checkpoints. |
| Compression.Select | src/main/java/com/after_sunrise/sx8000/Main.java:248-266 | Each compressor is chosen exactly when the name ends in its own suffix. A name ending in none of them is written uncompressed, never an error. |
| Compression.SuffixesExclusive | src/main/java/com/after_sunrise/sx8000/Main.java:252-262 | No name ends in two of `.deflate`, `.gz` and `.bz2`, so the order in which they are tried never changes the outcome. |
| Compression.FileName | src/main/java/com/after_sunrise/sx8000/Main.java:250 | The file name is a separator-free suffix of the path. It is either the whole path or begins right after a `/`. |
| Compression.SelectOnPath | src/main/java/com/after_sunrise/sx8000/Main.java:250-264 | Choosing from the file name or from the whole path gives the same compressor. |
| Compression.SelectExamples | src/test/java/com/after_sunrise/sx8000/MainTest.java:94-108 | With any stem, `.deflate`, `.gz` and `.bz2` select their compressors, and `test.txt` selects none. |
| Query.Classify | src/main/java/com/after_sunrise/sx8000/Main.java:206-244 | Classpath exactly when the whole input is `classpath:` or `cp:` followed by a non-empty remainder free of line terminators; the path is that remainder (group 2). File exactly when that fails and the whole input is `file:` or `filepath:` followed by such a remainder; the path is again the remainder. Otherwise the input is returned unchanged. |
| Query.ClasspathGroupUnique | src/main/java/com/after_sunrise/sx8000/Main.java:208-212 | When the classpath pattern matches, its group 2 is determined by the input. |
| Query.FilepathGroupUnique | src/main/java/com/after_sunrise/sx8000/Main.java:232-236 | When the file pattern matches, its group 2 is determined by the input. |
| Query.ClasspathPrefixed | src/main/java/com/after_sunrise/sx8000/Main.java:208-212 | For every remainder `X` that is non-empty and free of line terminators, both `cp:X` and `classpath:X` name the resource `X`. |
| Query.FilePrefixed | src/main/java/com/after_sunrise/sx8000/Main.java:232-236 | For every valid remainder `X`, both `file:X` and `filepath:X` name the file `X`. |
| Query.FileNotClasspath | src/main/java/com/after_sunrise/sx8000/Main.java:208-234 | No `file:` or `filepath:` input matches the classpath pattern, so trying classpath first never hides a file reference. |
| Query.BadRemainderIsLiteral | src/main/java/com/after_sunrise/sx8000/Main.java:208-244 | A recognised prefix followed by nothing, or by text containing a line terminator, matches neither pattern. Such input is kept as SQL. |
| Query.UnprefixedIsLiteral | src/main/java/com/after_sunrise/sx8000/Main.java:244 | An input that starts with none of the four prefixes is returned unchanged. |
| Query.ClassifyLiteralExample | src/test/java/com/after_sunrise/sx8000/MainTest.java:87 | `foo bar` is returned as the SQL itself. |
| Checksum.LowerAscii | src/main/java/com/after_sunrise/sx8000/Main.java:196 | Lower-casing keeps the length and leaves no upper-case ASCII letter. Each character is unchanged or is its upper-case letter shifted to lower case. |
| Checksum.RemoveDashesSpec | src/main/java/com/after_sunrise/sx8000/Main.java:196 | `replaceAll("-", "")` leaves no dash, shortens the name by its number of dashes, and leaves a dash-free name unchanged. |
| Checksum.RemoveDashesChar | src/main/java/com/after_sunrise/sx8000/Main.java:196 | A single character is kept by `replaceAll("-", "")` unless it is `-`. |
| Checksum.RemoveDashesAppend | src/main/java/com/after_sunrise/sx8000/Main.java:196 | Dash removal works piecewise: removing dashes from a concatenation concatenates the dash-free pieces. With the previous row this fixes the result on every name: the non-dash characters, in order. |
| Checksum.RemoveOneDash | src/main/java/com/after_sunrise/sx8000/Main.java:196 | Two dash-free parts joined by one `-` become the two parts joined directly. |
| Checksum.AlgorithmSuffix | src/main/java/com/after_sunrise/sx8000/Main.java:196 | The extension has no dash and no upper-case ASCII letter. Its length is the algorithm name's length minus its dashes. |
| Checksum.SuffixOfChar | src/main/java/com/after_sunrise/sx8000/Main.java:196 | In the extension a `-` contributes nothing and any other character contributes its lower-case form. |
| Checksum.SuffixAppend | src/main/java/com/after_sunrise/sx8000/Main.java:196 | The extension of a concatenated name is the concatenation of the extensions. With the previous row this fixes the extension of every name: its non-dash characters, lower-cased, in order. |
| Checksum.ChecksumPath | src/main/java/com/after_sunrise/sx8000/Main.java:196 | The checksum path consists of the output path, then a dot, then the algorithm suffix, each at its own position. |
| Checksum.SuffixIgnoresCase | src/main/java/com/after_sunrise/sx8000/Main.java:196 | Lower-casing the algorithm name first does not change the checksum file's extension. |
| Checksum.SuffixIgnoresDashes | src/main/java/com/after_sunrise/sx8000/Main.java:196 | Removing the dashes from the algorithm name first does not change the checksum file's extension. |
| Checksum.SuffixIdempotent | src/main/java/com/after_sunrise/sx8000/Main.java:196 | Deriving the suffix from an already derived suffix changes nothing. |
| Checksum.Sha256Path | src/test/java/com/after_sunrise/sx8000/MainTest.java:36-37 | The default algorithm `SHA-256` puts the checksum in `<out>.sha256`. |
| CharacterConverter.Utf16Length | src/main/java/com/after_sunrise/sx8000/CharacterConverter.java:13 | Java's `length()` is between the character count and twice it. It equals the character count exactly when every character is in the Basic Multilingual Plane. |
| CharacterConverter.Utf16LengthChar | src/main/java/com/after_sunrise/sx8000/CharacterConverter.java:13 | One character is one code unit inside the Basic Multilingual Plane and two (a surrogate pair) outside it. |
| CharacterConverter.Utf16LengthConcat | src/main/java/com/after_sunrise/sx8000/CharacterConverter.java:13 | The code-unit length of a concatenation is the sum of the lengths. With the previous row this gives the value of `length()` on every string: the character count plus the number of supplementary characters. |
| CharacterConverter.Convert | src/main/java/com/after_sunrise/sx8000/CharacterConverter.java:12-18 | Conversion succeeds exactly on a one-code-unit value and returns its only character. Otherwise it fails, naming the option and the value. |
| CharacterConverter.ConvertSingle | src/main/java/com/after_sunrise/sx8000/CharacterConverter.java:16 | Every one-code-unit character converts to itself. |
| CharacterConverter.ConvertRejects | src/main/java/com/after_sunrise/sx8000/CharacterConverter.java:13-14 | The empty value, and any value of two or more code units, is rejected with the parameter error. |
| CharacterConverter.ConvertRejectsSupplementary | src/main/java/com/after_sunrise/sx8000/CharacterConverter.java:13-14 | A single supplementary character is two code units in Java and is rejected. |
| Export.DataRow | src/main/java/com/after_sunrise/sx8000/Main.java:162-168 | One field per column. A field is absent exactly when the column value is SQL NULL, and is otherwise the value's string form. |
| Export.HeaderRow | src/main/java/com/after_sunrise/sx8000/Main.java:148-156 | One field per column, holding the column labels in ordinal order. |
| Export.WrittenRows | src/main/java/com/after_sunrise/sx8000/Main.java:146-170 | Every row handed to the writer, header included, has exactly one field per column. |
| Export.StreamRows | src/main/java/com/after_sunrise/sx8000/Main.java:158-182 | The loop's effects:<br>- the counter ends at the number of rows read before the cursor is exhausted or throws;<br>- row `i` is written as the `i`-th cursor row;<br>- the checkpoints are exactly `Flush.Checkpoints` of the final counter;<br>- the checkpoint logging counter `k` comes after the write of row `k` and before row `k + 1`;<br>- the final flush is never emitted inside the loop. |
| Export.Assemble | src/main/java/com/after_sunrise/sx8000/Main.java:146-186 | The header comes first when enabled, followed by the data rows in cursor order. The loop's checkpoints are unchanged, each still placed right after its row (shifted by the header). The final flush occurs only as the last event, and it is there exactly when the loop ended normally. |
| Export.Completion | src/main/java/com/after_sunrise/sx8000/Main.java:160-186 | The loop leaves the output block by the failing `rs.next()` call exactly when the block does not complete normally. A block that completes has read every row of the cursor. |
| Export.Execute | src/main/java/com/after_sunrise/sx8000/Main.java:136-202 | A run:<br>- completes exactly when no cursor call fails;<br>- writes at most one header row (the labels) and then every row read, in order, each with one field per column;<br>- flushes at exactly the counters `Flush.Checkpoints` predicts, each flush after the write of the row it counts and before the next row;<br>- emits the final flush only as its last event, and does so iff it completed;<br>- names a checksum file only when checksums are on and the run completed. |

## Left out

- JDBC (`Class.forName`, `DriverManager`, statements, result sets) is not modelled as calls. The result set is a column-label sequence and a sequence of rows of `SqlValue`. A cursor failure is the `fault` parameter of `Export.Execute`.
- Loading the statement from the classpath or a file is I/O. Only the choice between classpath, file and literal is modelled.
- The DEFLATE, gzip and bzip2 byte formats are library code. The chosen compressor is an enum tag.
- `MessageDigest`, the digest bytes and `Hex.encodeHexString` are library calls and are not modelled. The run records the checksum file's path, not its contents.
- `DigestOutputStream`, `CountingOutputStream` and the byte counts in the log lines are stream plumbing over library classes.
- opencsv quoting, escaping and line ends are library code. `writeNext` appends an abstract row of optional fields to the trace.
- The `--write` open mode and the encoding of both files are parameters of file I/O and are not modelled.
- JCommander parsing, `main` and logging are left out. The converter's error message text is reduced to the option name and the value.
- `MessageDigest.getInstance` throws for an unknown algorithm before any output is written. The model assumes a known algorithm name.
- A `toString()` that returns `null` is not modelled. Every non-NULL value has a string form.
- Lone surrogate code units are legal in Java strings. They cannot appear in Dafny strings, so the converter model covers only well-formed text.
- Compression.FileName: models `Path.getFileName()` for `/`-separated paths only. It takes the part after the last `/` and does not normalise trailing separators, the root path or other platform separators.
- Checksum.LowerAscii: lower-cases only the ASCII letters `A`-`Z`. `toLowerCase(Locale.US)` also maps non-ASCII letters, so non-ASCII algorithm names are not covered.
- Checksum.AlgorithmSuffix: inherits the ASCII-only lower-casing of `Checksum.LowerAscii`.
- Export.StreamRows: requires at most 2^63-1 rows, because the row counter is a Java `long`. Wrap-around beyond that count is not modelled.
- Export.Execute: requires every row to have one value per column label, which JDBC guarantees for a result set. It models only a failure of `rs.next()` as the abort, not failures of writing or flushing. The row-count bound of `Export.StreamRows` applies here too.
