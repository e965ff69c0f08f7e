# convert_to_utf8, modelled in Dafny

`convert_to_utf8(path, file_types=['.txt'])` walks a directory tree and keeps the files whose
name ends, literally and case-sensitively, with one of `file_types`. For each kept file it reads
all the bytes and detects the encoding by trial decoding. Strict UTF-8 goes first; after that the
fixed list `gbk`, `big5`, `utf-16`, `utf-8-sig` is tried in order, and the first codec that decodes
without error wins. A file that no codec decodes is skipped silently. A file detected as UTF-8 is
left alone. Any other file is overwritten with the UTF-8 encoding of its decoded text. Every
classified file adds one record `(directory, file name, original encoding, 'utf-8')` to the list
the function returns.

The model has five modules:

- `Utf8` (utf8.dfy): strict UTF-8 as the grammar of section 4 of RFC 3629 defines it. This is the
  grammar Python's `decode('utf-8')` follows: no overlong forms, no surrogates, nothing above
  U+10FFFF. The module has a decoder, an encoder, and both round trips. Every text survives
  encoding, and valid UTF-8 is exactly the encoding of what it decodes to.
- `Codecs` (codecs.dfy): the five encodings and the names records give them. `utf-8-sig` is
  concrete: it drops one leading `EF BB BF` and decodes the rest as UTF-8. The GBK, Big5 and UTF-16
  decoders are the fields of a `ForeignCodecs` value that every operation takes as a parameter.
- `Detection` (detection.dfy): detection as a pure first-match function, `Detect`, and the
  `try`/`for`/`break`/`else` code as a loop method proved equal to it. One consequence is proved
  here: `utf-8-sig` can never be the detected encoding. Whatever it accepts is already valid UTF-8
  (the signature is itself a UTF-8 character), so detection stops at UTF-8 first. A UTF-8 file
  with a signature is therefore reported as `utf-8` and keeps its signature.
- `Converter` (converter.dfy): the suffix filter, the effect of one visit on one file
  (`Converted`), and the whole run as a function of the visit order (`Run`). It also holds the
  tree's files as a `FileSystem` object whose `files` map the converter overwrites in place, and
  `ConvertToUtf8`, the nested loop over the walk, proved to have exactly the effect of `Run`.
- `Wrappers` (wrappers.dfy): `Option`.

The directory walk is an input: a sequence of `Listing(root, files)` values, one for each
`(root, dirs, files)` triple `os.walk` yields. A file's path `os.path.join(root, file)` is the
pair `Entry(root, file)`. Opening a file that is not there raises, and nothing in the function
catches that, so the error escapes the call. By then, files visited earlier may already have been
rewritten. The model gives this case its own outcome, `FileNotFound(path)`, and leaves those
earlier rewrites in place.

On three points the model follows the source as written:

- Unreadable files are not turned into per-file errors. The first one aborts the whole call.
- Write failures are not reported per file.
- The candidate list is a constant, not a configuration value.

## Model

| member | source | states |
|---|---|---|
| `Utf8.CodePoint` | convert_utf8.py:27 | a well-formed UTF-8 character decodes to a Unicode scalar value, and its byte length is the shortest that can hold that value (no overlong forms, no surrogates, nothing above U+10FFFF) |
| `Utf8.EncodeChar` | convert_utf8.py:45-46 | the UTF-8 form of each character is one well-formed UTF-8 character that decodes back to it |
| `Utf8.DecodeEncode` | convert_utf8.py:45-46 | any text written out as UTF-8 decodes back, strictly, to the same text |
| `Utf8.EncodeDecode` | convert_utf8.py:25-28 | bytes that decode strictly as UTF-8 are exactly the UTF-8 encoding of the text they decode to |
| `Codecs.DecodeUtf8Sig` | convert_utf8.py:31-34 | the `utf-8-sig` decoder accepts only bytes that are already valid UTF-8; without a signature it gives the UTF-8 text, and with one it gives that text without its leading U+FEFF |
| `Detection.FirstDecoding` | convert_utf8.py:32-38 | the index of the first encoding in the list that decodes the bytes: that one decodes and no earlier one does, or the list length when none does |
| `Detection.Detect` | convert_utf8.py:25-41 | the result is `utf-8` exactly when the bytes are valid UTF-8; any result decodes the bytes; there is no result exactly when UTF-8 and all four candidates fail; a non-UTF-8 result is the earliest candidate that decodes; `utf-8-sig` is never the result |
| `Detection.DetectEncoding` | convert_utf8.py:25-41 | the loop (UTF-8 first, then each candidate until the first success, else skip) returns exactly `Detect` of the bytes |
| `Converter.EndsWithIsSuffix` | convert_utf8.py:20 | a name ends with a suffix exactly when it is some string followed by that suffix (literal and case-sensitive; the empty suffix matches every name) |
| `Converter.Matches` | convert_utf8.py:20-21 | a name passes the filter exactly when it ends with at least one of the file types, so an empty list of types lets no file through |
| `Converter.Converted` | convert_utf8.py:43-47 | UTF-8 and undecodable bytes are left as they are; otherwise the new bytes decode strictly as UTF-8 to the text the detected encoding read from the old ones, and are detected as UTF-8 |
| `Converter.VisitFiles` | convert_utf8.py:43-47 | a visit replaces the visited file's bytes by their conversion when the name matches and the file exists, and leaves every other file as it was |
| `Converter.ConvertedTwice` | convert_utf8.py:44-47 | converting a file's bytes a second time changes nothing |
| `Converter.Utf8RewriteIsIdentity` | convert_utf8.py:44-49 | for a file detected as UTF-8, decoding and re-encoding would reproduce its bytes, so leaving it unwritten loses nothing |
| `Converter.AbortedStays` | convert_utf8.py:23-24 | once a matching file cannot be opened, nothing later in the walk is visited and the state stays as it was |
| `Converter.RunKeepsPaths` | convert_utf8.py:45 | a run creates and deletes no files: the set of paths is unchanged |
| `Converter.RunFiles` | convert_utf8.py:18-47 | a file changes only if the walk lists it, its name matches, and it changes to the conversion of its original bytes; in a completed run every matching listed file holds exactly that conversion and every other file is unchanged |
| `Converter.RunCompletes` | convert_utf8.py:22-24 | a run completes exactly when every matching file of the walk exists |
| `Converter.RunStopsAtMissing` | convert_utf8.py:22-24 | a run that does not complete stops at the first matching file of the walk that does not exist |
| `Converter.RecordsShape` | convert_utf8.py:17-49 | every record has target `utf-8`, an original encoding among `utf-8`, `gbk`, `big5`, `utf-16`, and names a matching file of the walk; there are no more records than files visited |
| `Converter.RecordsFollowWalk` | convert_utf8.py:17-49 | when the walk lists each file once, the records are in visit order, one for each matching file that some encoding decodes, and each carries the encoding detected on that file's original bytes |
| `Converter.RunOverSettled` | convert_utf8.py:44-49 | a run over files that are all UTF-8 or undecodable changes nothing and reports only `utf-8` to `utf-8` |
| `Converter.RunTwice` | convert_utf8.py:5-8 | after a completed run, a second run over the same files, in any order, completes, changes no byte and reports only `utf-8` to `utf-8` |
| `Converter.ExampleTree` | convert_utf8.py:17-49 | on a tree with a GBK `.txt` file, a UTF-8 `.txt` file and a GBK `.csv` file, the run reports `gbk` and then `utf-8`, rewrites only the GBK `.txt` file to the UTF-8 bytes of the same text, and leaves the `.csv` file alone |
| `Converter.FileSystem.ReadBytes` | convert_utf8.py:23-24 | reading a file gives its whole content, or reports that no such file exists |
| `Converter.FileSystem.WriteText` | convert_utf8.py:45-46 | after the write the file holds exactly the UTF-8 encoding of the text, with no signature added, and no other file changes |
| `Converter.ConvertToUtf8` | convert_utf8.py:4-55 | the nested loop over the walk returns the records of `Run` over the walk's files, or the missing file that aborted it, and leaves the files exactly as `Run` does |

## Left out

- The directory traversal `os.walk` (convert_utf8.py:18) is an input sequence of listings. Its order, its recursion, symbolic links and the `dirs` list are not modelled.
- The GBK, Big5 and UTF-16 codec tables are Python library code. They are `ForeignCodecs` parameters, and nothing about them is assumed beyond being functions of the bytes.
- Texts are Dafny strings of Unicode scalar values. Python strings may hold lone surrogates, but the strict decoders used here never produce them, so encoding a text as UTF-8 cannot fail in the model.
- Two paths that name the same file (a hard link, or a symbolic link to a file) are separate entries of the `files` map, with separate bytes. In the source they share bytes: the first visit rewrites the file, so the later visit reads UTF-8 and its record says `utf-8`. The model's record for the later path repeats the original encoding (for example `gbk`).
- `os.path.join` is not modelled. A path is the pair of directory and file name.
- Permission errors, I/O errors and a write that fails or stops halfway are not modelled. The source does not handle them either. The only failure modelled is a listed file that cannot be opened.
- Converter.RecordsFollowWalk: assumes that the walk lists each file once, which `os.walk` guarantees. Without that assumption, `RecordsShape` still holds.
- The `print` loops (convert_utf8.py:51-53, 62-64) and the interactive prompt under `__main__` (convert_utf8.py:58-61) are console I/O.
