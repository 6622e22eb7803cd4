# HLS video streamer: conversion and request handlers

This project models the core of GO_VideoStreamer, a small Go web service that
stores uploaded videos and converts them into multi-quality HLS streams. The
model covers two parts.

- **The conversion.** For each of the four quality variants (360p, 540p,
  720p, 1080p), the service runs the external encoder into a job directory
  named by the job's id. It then writes a master playlist that names every
  variant's sub-playlist. The presence of that playlist is what marks a job
  Ready. A failure at any step removes the whole job directory, so the job
  can be retried.
- **The HTTP handlers.** These cover five things:
  - the status page, which lists jobs as Ready or Processing, and lists
    uploads that have no job directory yet;
  - saving an upload under a fresh id, `video_<nanoseconds>_<counter>`;
  - starting a conversion for an upload;
  - deleting a job's output;
  - deleting an upload.

The two directories the service works in are values of type `FileTree.Area`:
a map from an entry's name to a file or to a directory with its files.

- `Converter.HlsRoot` is the HLS root. Its method `ConvertToHLS` updates the
  root in place, variant by variant, as the Go function does for any id that
  names an entry under the root. While the HLS root exists, those are the
  only ids the reconvert handler starts a run for.
- `Library.Server` holds the upload area, the HLS root and the id counter.
  Its handler methods update these, or read them and return a `Reply`.

The encoder, the clock and the outcome of each file operation that can fail
are parameters. Each is explained under "Left out".

Modules:
- `Text`: decimal rendering (`%d`) and `strings.TrimSuffix`.
- `Paths`: `filepath.Ext`, stripping an extension, and `filepath.Clean` of a relative path.
- `FileTree`: the two directories, job status, `os.RemoveAll` and `os.Remove`.
- `Converter`: the variant table, the master playlist and `ConvertToHLS`.
- `Library`: the page records, id generation and the five handlers.

## Model

| member | source | states |
|---|---|---|
| Text.NatToString | lib/lib.go:181 | `%d` renders a natural number as a non-empty string of digits with no leading zero |
| Text.DecimalValueOfNatToString | lib/lib.go:181 | reading the rendered digits back gives the number again |
| Text.NatToStringInjective | lib/lib.go:181 | different numbers render differently |
| Text.LeadingZeroValue | lib/converter.go:43 | a leading zero does not change the number a digit string denotes |
| Text.TrimSuffix | lib/lib.go:146 | when `s` ends with the suffix, the result followed by the suffix is `s`; otherwise the result is `s` unchanged |
| Text.DecimalValueTimesThousand | lib/converter.go:87 | appending "000" to a digit string multiplies its value by 1000 |
| Paths.ExtStartMeaning | lib/lib.go:145 | the backwards scan of `filepath.Ext` stops either at a dot with no dot or separator after it, or at a separator or the start of the path; in the second case every earlier dot has a separator after it |
| Paths.ExtMeaning | lib/lib.go:145 | `Ext` returns a suffix of the path that is empty or a single dot followed by neither dots nor separators; it is empty exactly when every dot has a separator after it |
| Paths.ExtStartSkips | lib/lib.go:182 | the scan passes unchanged over a stretch that holds no dot and no separator |
| Paths.ExtOfDotlessStem | lib/lib.go:182-183 | a dotless stem followed by an extension has exactly that extension, and stripping the extension gives back the stem |
| FileTree.StatusOf | lib/lib.go:120-123 | a job is Absent exactly when it has no directory, and Ready exactly when its directory holds `master.m3u8` |
| FileTree.RemoveAll | lib/lib.go:66-67 | the entry is gone, a missing entry is not an error, and every other entry is unchanged |
| FileTree.Remove | lib/lib.go:93-95 | a file or an empty directory is removed; a directory with files stays; every other entry is unchanged |
| FileTree.RemoveAllIdempotent | lib/lib.go:66-67 | removing twice gives what removing once gave |
| FileTree.RemoveIdempotent | lib/lib.go:93-95 | the same for `os.Remove` |
| Converter.ZeroPad3 | lib/converter.go:43 | `%03d` leaves three or more digits as they are, and pads fewer digits on the left with '0' to exactly three characters |
| Converter.ZerosValue | lib/converter.go:43 | any number of leading zeros leaves the value of a digit string unchanged |
| Converter.ZeroPad3Value | lib/converter.go:43 | padding a digit string leaves the number it denotes unchanged |
| Converter.SegmentNumberReadsBack | lib/converter.go:43 | the padded segment number reads back as the segment's index, which `SegmentNamesDistinct` uses |
| Converter.SegmentNamesDistinct | lib/converter.go:43 | two segment numbers that give the same segment file name are equal |
| Converter.BuildManifest | lib/converter.go:83-94 | the loop that fills the string builder produces `Manifest(vs)`: the header followed by each variant's tag line and sub-playlist line |
| Converter.ManifestGrows | lib/converter.go:86-94 | each loop step appends exactly one variant's two lines to the playlist built so far |
| Converter.JoinLinesAppend | lib/converter.go:83-94 | joining lines with line breaks distributes over concatenation of the line lists |
| Converter.SplitJoinLines | lib/converter.go:83-94 | splitting joined single lines at line breaks gives back the same lines |
| Converter.ManifestStructure | lib/converter.go:83-94 | the master playlist starts with `#EXTM3U` and `#EXT-X-VERSION:3`, then for each variant in order holds its `EXT-X-STREAM-INF` line followed by its `stream_<name>.m3u8` line, for 2 + 2·n lines in all |
| Converter.VariantTable | lib/converter.go:22-27 | the table holds 360p, 540p, 720p and 1080p in that order, with bandwidths 800000, 1800000, 3500000 and 6000000; no field holds a line break |
| Converter.BandwidthInBitsPerSecond | lib/converter.go:87 | a bitrate of `<digits>k` becomes a bandwidth whose value is 1000 times the digits' value |
| Converter.WithEncoderOutputMeaning | lib/converter.go:61-63 | adding an encoder run's files keeps the existing files and adds exactly the new names as encoder output |
| Converter.FirstFailure | lib/converter.go:69-73 | the index of the first failing encode: every encode before it succeeded, and it fails unless it is the end of the table |
| Converter.FirstFailureStable | lib/converter.go:69-73 | once every encode before `m` has succeeded, the first failure within `n` is the first failure at or after `m` |
| Converter.EncodedFilesMeaning | lib/converter.go:41-74 | after `i` encodes, the job directory holds only encoder output, and a file is present exactly when one of those encodes wrote it |
| Converter.Names | lib/converter.go:41 | the variant names in table order |
| Converter.HlsRoot.constructor | lib/converter.go:22-27 | the root starts with the given directories and the package's variant table |
| Converter.HlsRoot.ConvertToHLS | lib/converter.go:31-105 | for an id that names an entry under the root, the root afterwards is `ConvertOutcome`. The job directory is removed if an encode failed or the playlist write failed. Otherwise it holds exactly the variants' files and the master playlist with the composed text, and every other job is unchanged. The encoder is started for the variants up to and including the first that fails |
| Converter.MasterIsNoVariantFile | lib/converter.go:42-43 | no file an encode writes is named `master.m3u8` |
| Converter.VariantOutputsAreNotMaster | lib/converter.go:41-74 | while variants are still being encoded, the job directory has no master playlist |
| Converter.AttemptedStopsAtFirstFailure | lib/converter.go:69-73 | the variants attempted are a prefix of the table, every one but the last succeeded, and the run stops short only at a failure |
| Converter.ConvertStatus | lib/converter.go:76-102 | for an id that names an entry, after a run the job is Ready exactly when every encode succeeded and the playlist was written, and Absent otherwise; a finished run never leaves a job Processing |
| Converter.ConvertedContents | lib/converter.go:83-101 | for an id that names an entry, after a successful run the directory holds the master playlist with the composed text plus exactly the variants' files; nothing from an earlier run survives, and every sub-playlist the master names exists |
| Converter.FinishedFileNames | lib/converter.go:83-101 | once every encode has succeeded, the job directory holds exactly the master playlist and the files the encodes wrote |
| Converter.ConvertIsolated | lib/converter.go:32-36 | for an id that names an entry under the root, a run changes no other job's directory |
| Converter.ConvertForgetsPreviousRun | lib/converter.go:34-36 | for an id that names an entry, what a run leaves for the job does not depend on what was in the root before |
| Library.NewIdIsPlainName | lib/lib.go:181 | a generated id holds no dot and no separator |
| Library.NewIdInjective | lib/lib.go:181 | two ids are equal only when both the times and the counter values are equal, so uploads that drew different counter values never share an id |
| Library.SavedUploadMapsBack | lib/lib.go:181-183 | an upload saved as the id plus the client file's extension maps back to that id when its extension is stripped |
| Library.VideosOfMeaning | lib/lib.go:117-131 | each Video comes from a listed directory, with Ready set exactly when the directory holds the master playlist and Processing its negation; every listed directory yields one; a listing without repeats gives distinct ids |
| Library.VideosAreTheJobDirectories | lib/lib.go:117-131 | for a directory listing, the page shows `Video(id, true, false)` exactly for Ready jobs and `Video(id, false, true)` exactly for Processing jobs, each once, and nothing else |
| Library.ListedDirsAreJobDirs | lib/lib.go:117-131 | for a complete listing of the HLS root, the ids the handler records are exactly the job directories |
| Library.UnconvertedOfMeaning | lib/lib.go:140-151 | an upload is listed exactly when it is among the names read, is not a directory, and its stripped name is not a job id |
| Library.UnconvertedUploads | lib/lib.go:140-151 | for both listings, an upload is offered exactly when it is a file and its stripped name names no job directory |
| Library.ConvertedUploadLeavesList | lib/lib.go:140-151 | after a conversion of an upload whose stripped name names an entry under the HLS root, the upload leaves the list of unconverted uploads exactly when the conversion succeeded |
| Library.JoinHlsRoot | lib/lib.go:66 | `filepath.Join("./hls", id)` for a one-element id cleans to the root itself for "" and ".", to "." for "..", and to the entry `hls/<id>` otherwise |
| Library.DeleteHLSAsWrittenCases | lib/lib.go:66-67 | the removal as written, with `os.RemoveAll` refusing the path ".": "" and "." remove the whole root, ".." removes nothing, and any other id removes just that job, as the intended removal does |
| Library.DotDeletesEveryJob | lib/lib.go:66-67 | as written, deleting "." leaves every job Absent |
| Library.DotDeletesAnotherJob | lib/lib.go:66-67 | a concrete root with two Ready jobs, where deleting "." makes the job `video_1_2`, never named, Absent |
| Library.DeleteHLSOutcome | lib/lib.go:66-67 | the intended removal: the named job's directory is gone, and every other entry keeps its presence and contents |
| Library.DeleteHLSAffectsOnlyItsJob | lib/lib.go:52-75 | deleting a job makes it Absent, leaves every other job's status as it was, and deleting again changes nothing |
| Library.Server.Init | lib/lib.go:44-49 | the handlers work on the given upload area, HLS root and counter |
| Library.Server.RootHandler | lib/lib.go:105-163 | a path other than "/" gets 404. Otherwise the page lists `VideosOf` the HLS listing and `UnconvertedOf` the upload listing, measured against the listed job directories, and `hasProcessing` is set exactly when some listed video is not ready |
| Library.Server.UploadHandler | lib/lib.go:166-202 | a method other than POST gets 405 and "Cannot read file" gets 400, both with no change. Otherwise the counter goes up by one before the file is created. A failed create gets 500 with no new file. A created file is named `video_<time>_<counter>` plus the client file's extension, and the reply is a redirect, or 500 "Save failed" if the copy fails |
| Library.Server.ReconvertHandler | lib/lib.go:205-236 | a method other than POST gets 405 and an empty name gets 400. If the job's output already exists, the reply is a redirect with nothing started. A missing upload gets 404. Otherwise a conversion of that upload into the job named by its stripped name is started, and the reply is a redirect. A started job's id always names an entry under the root |
| Library.Server.DeleteHLSHandler | lib/lib.go:52-75 | a method other than POST gets 405 and an empty id gets 400, both with no change; otherwise the job's output is removed (`DeleteHLSOutcome`) and the reply is a redirect |
| Library.Server.DeleteUploadHandler | lib/lib.go:78-102 | a method other than POST gets 405 and an empty name gets 400, both with no change; otherwise the upload is removed as `os.Remove` does, and the reply is a redirect even when the removal fails |

## Findings

| source | as written | input that shows it | evidently intended | confidence | as-written member | corrected member |
|---|---|---|---|---|---|---|
| lib/lib.go:66-67 | the id from the form is joined to the HLS root and removed with everything below it | a POST to the delete handler with id `.`: `filepath.Join("./hls", ".")` is `hls`, so the whole HLS root and every job in it are removed | remove only the named job's directory; an id that names the root itself, or its parent, deletes nothing | not executed; high for `.` | Library.DotDeletesAnotherJob | Library.DeleteHLSAffectsOnlyItsJob |

`Library.Server.DeleteHLSHandler` uses the corrected `Library.DeleteHLSOutcome`.
`Library.DeleteHLSAsWritten` keeps the removal as the code performs it. It is derived from
`Paths.CleanElements`, a model of `filepath.Clean`, and from `os.RemoveAll`'s refusal of the path ".".

## Left out

- The encoder subprocess is the parameter `encode`. For the n-th variant it reports success with a segment count, or failure with the files it left behind. Its command-line arguments (scale, codec, bitrates, segment length) and the contents of the files it writes are not modelled.
- The outcome of writing the master playlist is the parameter `written`.
- Errors from `os.MkdirAll`, and from the `os.RemoveAll` calls inside the conversion, are taken not to happen.
- Library.Server.DeleteHLSHandler takes its `os.RemoveAll` (lib/lib.go:67) never to fail. A removal that fails part-way and leaves a job directory partly deleted is not modelled.
- Library.Server.DeleteUploadHandler models only two failures of its `os.Remove` (lib/lib.go:95): a missing entry and a directory that still has files. Permission and I/O errors are not modelled.
- The HLS variant table is the package variable `HLS_VARIANTS`. In the model it is the field `variants` of `Converter.HlsRoot`, set from `Converter.HlsVariants` by the constructor and never changed.
- Converter.ConvertOutcome takes the playlist text as a parameter. `Converter.HlsRoot.ConvertToHLS` passes `Manifest(variants)`, and `Converter.ManifestStructure` proves what that text holds.
- Library.Server.ReconvertHandler returns the conversion it starts as a `Launch` instead of running it. The goroutine, the concurrency between conversions and handlers, and a second request that arrives while a conversion runs are not modelled. `Converter.HlsRoot.ConvertToHLS` models one run on its own.
- Library.Server.RootHandler receives the results of `os.ReadDir` as parameters (`hlsNames`, `uploadNames`). Their sorting, and read errors (which the handler ignores), are not modelled. The listing lemmas require the parameters to list each directory's entries once.
- Library.Server.UploadHandler takes the clock reading `time.Now().UnixNano()` as the parameter `nanos`. Whether the form holds a readable file, and whether `os.Create` and `io.Copy` succeed, are parameters too. The uploaded bytes are not modelled.
- Library.Server.UploadHandler models the counter as an unbounded natural number. It does not model the 64-bit wrap-around of `atomic.Uint64` or the atomicity of `Add`.
- Negative clock readings are not modelled (`nanos` is a natural number).
- Library.Server.ReconvertHandler and Library.OutputExists treat every `os.Stat` error other than "does not exist" (permissions, I/O) as the entry existing, as the code does. They do not model those errors arising.
- Converter.HlsRoot.ConvertToHLS and the lemmas about its outcome require an id that names an entry under the root, not "", "." or "..". A run for those ids would work on the root itself. While the HLS root exists (start-up creates it, main.go:30), the only caller never starts one: lib/lib.go:223-227 redirects when the joined output path exists, and `Library.Server.ReconvertHandler` ensures every id it launches names an entry.
- FileTree.Area cannot stand for a missing directory, so the model has no missing HLS root. As written, deleting the job "." removes the root (see Findings). A reconvert then finds no output directory for two upload names. The upload ".." strips to the id ".", and its input, `filepath.Join("./uploads", "..")`, is the working directory, which exists. The upload "." strips to the id "", and its input, `filepath.Join("./uploads", ".")`, is the upload root, which exists. In both cases the handler would start a run on the HLS root itself. The model shows the removed root as an empty one, on which `Library.OutputExists` still holds for "", "." and "..". This sequence is not modelled. With the corrected deletion that the model's handler uses, the root is never removed.
- Paths.CleanElements models `filepath.Clean` only for relative paths given as elements. The join is modelled only for a name that is one path element.
- Names that contain a path separator, and therefore reach into subdirectories or outside a root, are not modelled. The model looks such a name up as a single entry. This applies to the form values of the reconvert, delete-job and delete-upload handlers.
- Library.Server.DeleteUploadHandler does not model a filename of `.`. Joined to the upload root, it names the root itself, and `os.Remove` would remove the root when it is empty.
- The HTML template, its rendering, the redirect's exact wire form, logging and console output are not modelled. A reply is a page with its `TemplateData`, a redirect to a location, or an error status with its message.
- `main.go` is not part of this model. That covers route registration, the static file servers, directory creation at start-up and the `Init` call itself.
