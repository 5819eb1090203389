# kDrive backup agent: a Dafny model

This project models the decision logic of a Home Assistant integration. The integration stores Home
Assistant backups as `.tar` archives in a folder of an Infomaniak kDrive. The model covers:

- **the file-name codec**. `make_filename` writes a backup's id, Home Assistant version and protected
  flag into the archive name: `<stem>__id-<id>__ver-<version>__prot-<true|false>.tar`.
  `try_parse_filename` reads them back.
- **the backup agent's selection rules**:
  - the upload path (direct below 900 MiB, chunked from 900 MiB up);
  - the lookup of the host's retention count;
  - retention pruning after an upload;
  - the listing of backups and the exact-id `get`;
  - the substring match that `download` and `delete` use to find a backup's archive.
- **the folder-URL parser** `parse_kdrive_folder_url`. It extracts the drive and folder numbers with
  the regular expression `/drive/(\d+)/files/(\d+)(?:/|$)` used through `search`.

Modules, one per file:

- `Wrappers` holds `Option` and `Result`.
- `Text` is the Python string behaviour the code relies on:
  - `startswith`, `endswith` and `in`;
  - `split('__')` as a left-to-right scan, with `Join` as its inverse;
  - `lower()` on ASCII;
  - code-point `<=` on strings;
  - `int()`/`str()` of decimal digits.
- `Const` holds the tags, `strip('_')` and the folder-URL parser.
- `BackupFilename` is the codec.
- `Remote` holds listing entries and the requests sent to the kDrive client.
- `Retention` is `_enforce_retention`.
- `BackupAgent` holds the agent methods.

How the environment is represented:

- Calls into the kDrive client are represented by the sequence of `Request`s the agent sends.
- A listing is the server's answer, an input sequence of `Entry(id, name, type)`. Every flow first keeps only its `file` items, as `list_folder_files` does.
- The server's answer is the set of requests it refuses; a refused request raises.
- The host's `suggested_filename_from_name_date` is a function parameter, `suggest`.
- The host's configuration is a `Host` value. It records only the shape the lookup inspects, including whether the config object is truthy.

## Model

| member | source | states |
|---|---|---|
| Const.TagsStripToPrefixes | custom_components/informaniak_kdrive/const.py:17-19 | the tags are `__id-`, `__ver-`, `__prot-`, and stripping their underscores gives exactly the prefixes `id-`, `ver-`, `prot-` the parser tests |
| Const.StripLeading | custom_components/infomaniak_kdrive/backup.py:63 | `strip`'s leading half: the result is a suffix of the input, every character removed before it is the stripped one, and it does not start with that character |
| Const.StripTrailing | custom_components/infomaniak_kdrive/backup.py:63 | `strip`'s trailing half: the result is a prefix of the input, every character removed after it is the stripped one, and it does not end with that character |
| Const.Strip | custom_components/infomaniak_kdrive/backup.py:63-67 | `strip('_')`: the result is a slice of the input, every character outside that slice is `_`, and the result neither starts nor ends with `_` |
| Const.DigitRun | custom_components/informaniak_kdrive/const.py:25 | the greedy `\d+` run: all digits, stopped by a non-digit or the end |
| Const.MatchFolderAt | custom_components/informaniak_kdrive/const.py:25 | the groups of the pattern at one position: a match there starts with `/drive/`, and both groups are non-negative numbers |
| Const.RegexRunsAreGreedy | custom_components/informaniak_kdrive/const.py:25 | any match of the pattern at a position uses the greedy lengths of both digit groups, so each position has at most one match |
| Const.RegexMatchIsFound | custom_components/informaniak_kdrive/const.py:25 | every match of the pattern at a position is the one the model reports for that position |
| Const.MatchFolderAtIff | custom_components/informaniak_kdrive/const.py:25 | a position yields groups iff the pattern matches there with some group lengths, including the `(?:/|$)` condition after the folder digits |
| Const.SearchFromLeftmost | custom_components/informaniak_kdrive/const.py:28 | `search` returns the groups of the leftmost matching position, and a failed earlier attempt does not hide a later match (both directions) |
| Const.SearchFrom | custom_components/informaniak_kdrive/const.py:28 | `search` from a position: a result is the groups of some matching position from there on, and no result means no position from there on matches |
| Const.ParseFolderUrl | custom_components/informaniak_kdrive/const.py:27-31 | `parse_kdrive_folder_url`: a result is the groups of some matching position, and `ValueError` is raised iff no position of the URL matches |
| Const.ParseFolderUrlLeftmost | custom_components/informaniak_kdrive/const.py:27-31 | the parser returns `Ok` of the leftmost match's groups, and `ValueError` iff no position of the URL matches |
| Const.FirstMatchIsParsed | custom_components/informaniak_kdrive/const.py:28-31 | when the first matching position is `k`, the parser returns the groups at `k` |
| Const.PrefixHidesNoMatch | custom_components/informaniak_kdrive/const.py:25 | a prefix free of `/drive/` holds no matching position ahead of the `/drive/` that follows it |
| Const.FolderUrlRoundTrip | custom_components/informaniak_kdrive/const.py:25-31 | for any prefix without `/drive/`, parsing `prefix/drive/<d>/files/<f>`, optionally followed by `/...`, gives `(d, f)` (for numbers of any length; see "Left out" on the digit limit) |
| Text.SplitJoin | custom_components/infomaniak_kdrive/backup.py:59 | `split('__')` loses nothing: joining its pieces with `__` gives back the input |
| Text.Split | custom_components/infomaniak_kdrive/backup.py:59 | `split('__')` always gives at least one piece, so `parts[0]` exists |
| Text.AsciiLower | custom_components/infomaniak_kdrive/backup.py:68 | `lower()` keeps the length and maps each character on its own: `A`-`Z` become `a`-`z`, and every other character is unchanged |
| Text.SplitPiecePreceded | custom_components/infomaniak_kdrive/backup.py:59 | each piece after the first was preceded by `__` in the split text |
| Text.SplitFirstPieceUpToSeparator | custom_components/infomaniak_kdrive/backup.py:59-61 | the first piece of `split('__')` is the text up to the first `__`, or all of it when there is none |
| Text.DecimalRoundTrip | custom_components/informaniak_kdrive/const.py:31 | `int(str(n)) == n` for every natural number, with no limit on the number of digits |
| Text.LexLeTotal | custom_components/infomaniak_kdrive/backup.py:208 | the name order used by the sort is total |
| Text.LexLeTrans | custom_components/infomaniak_kdrive/backup.py:208 | the name order used by the sort is transitive |
| BackupFilename.VersionText | custom_components/infomaniak_kdrive/backup.py:46 | the written version is the backup's version when that is present and non-empty, and `unknown` otherwise, so it is never empty |
| BackupFilename.TarStem | custom_components/infomaniak_kdrive/backup.py:48 | a trailing `.tar` is removed from the suggested base, and nothing else is changed |
| BackupFilename.MakeFilename | custom_components/infomaniak_kdrive/backup.py:44-49 | the name always ends in `.tar` and always contains `__id-<backup_id>` |
| BackupFilename.WrittenNameShape | custom_components/infomaniak_kdrive/backup.py:47-49 | a name laid out as `<stem>__id-<id>__ver-<v>__prot-<p>.tar` ends in `.tar` and contains `__id-` followed by the id and by every prefix of it |
| BackupFilename.TagAbsent | custom_components/infomaniak_kdrive/backup.py:62-66 | a tag has no value iff no segment starts with it (both directions) |
| BackupFilename.ProtFlag | custom_components/infomaniak_kdrive/backup.py:67-69 | no flag iff the `prot-` tag is missing; the flag is true iff the value is `true` in any mix of cases |
| BackupFilename.ParseFilename | custom_components/infomaniak_kdrive/backup.py:52-72 | an accepted name ends in `.tar`, its stem contains `__id-`, and its id is non-empty |
| BackupFilename.ReadTags | custom_components/infomaniak_kdrive/backup.py:61-69 | the loop over the segments after the first leaves in each variable the value of the last segment carrying its tag, and the protected flag is that value lower-cased compared with `true` |
| BackupFilename.TryParseFilename | custom_components/infomaniak_kdrive/backup.py:52-72 | the parsing loop over the `__` segments, with its `if`/`elif` chain on the stripped tags, returns what `ParseFilename` states field by field |
| BackupFilename.TagValueIsLast | custom_components/infomaniak_kdrive/backup.py:62-69 | a tag's value comes from the last segment carrying that tag; later repeats override earlier ones, and other segments are ignored (both directions) |
| BackupFilename.TagIndex | custom_components/infomaniak_kdrive/backup.py:62-65 | a tag's value is the rest of some segment starting with that tag |
| BackupFilename.ParseRejects | custom_components/infomaniak_kdrive/backup.py:54-58 | a name that does not end in `.tar`, or holds no `__id-` at all, is rejected |
| BackupFilename.NameHintBeforeFirstSeparator | custom_components/infomaniak_kdrive/backup.py:59-61 | an accepted name's hint is a prefix of the stem that holds no `__` and is followed by `__` |
| BackupFilename.LaterIdOverrides | custom_components/infomaniak_kdrive/backup.py:62-71 | of two `id-` segments the later one wins; when it is empty the name is rejected although an earlier id was good |
| BackupFilename.IdSegmentInStem | custom_components/infomaniak_kdrive/backup.py:59-65 | an id read from the segments after the stem occurs in the name as `__id-<id>` |
| BackupFilename.ParseAccepts | custom_components/infomaniak_kdrive/backup.py:54-71 | an accepted name ends in `.tar`, its id is non-empty, and it contains `__id-<id>` |
| BackupFilename.ParseMakeRoundTrip | custom_components/infomaniak_kdrive/backup.py:44-72 | for a non-empty id, and a stem, id and version without `__` and without a trailing `_`, parsing the written name gives back the stem as name hint, the id, the version (or `unknown`) and the protected flag |
| BackupFilename.ParseWritten | custom_components/infomaniak_kdrive/backup.py:52-72 | the same round trip, stated on the fields of the written name |
| BackupFilename.TrailingUnderscoreLosesId | custom_components/infomaniak_kdrive/backup.py:59 | the trailing-underscore condition is needed: a stem `a_` merges with the id tag's `__`, and the name is rejected |
| BackupFilename.ProtFlagCases | custom_components/infomaniak_kdrive/backup.py:67-69 | `prot-` is compared case-insensitively: `TRUE` and `True` give protected, while `false`, `yes` and an empty value do not, and a missing tag gives none |
| BackupFilename.ProtFlagOfWritten | custom_components/infomaniak_kdrive/backup.py:47 | the flag written as `true`/`false` reads back as itself |
| Remote.ListFolderFiles | custom_components/infomaniak_kdrive/client.py:27 | an item is in the listing iff the server lists it with type `file`, and the listing is no longer than the server's |
| Remote.AllFilesListed | custom_components/infomaniak_kdrive/client.py:27 | a listing in which every item is a file is kept whole |
| Remote.ListFolderFilesCount | custom_components/infomaniak_kdrive/client.py:27 | each item typed `file` is kept as many times as the server lists it; every other item is dropped |
| Remote.ListFolderFilesAppend | custom_components/infomaniak_kdrive/client.py:27 | filtering is piecewise: the filtered listing keeps the server's order |
| Retention.RetentionCandidates | custom_components/infomaniak_kdrive/backup.py:200-204 | the candidates are exactly the listed items that are files and whose names parse |
| Retention.ParseableEntries | custom_components/infomaniak_kdrive/backup.py:202-205 | the candidates are exactly the listed entries whose names parse |
| Retention.Insert | custom_components/infomaniak_kdrive/backup.py:208 | inserting adds exactly one entry and loses none (multiset) |
| Retention.SortByName | custom_components/infomaniak_kdrive/backup.py:208 | sorting permutes the candidates (multiset equality) |
| Retention.SortByNameSorted | custom_components/infomaniak_kdrive/backup.py:208 | the sorted candidates are in ascending name order |
| Retention.CollectCandidates | custom_components/infomaniak_kdrive/backup.py:202-205 | the first loop appends exactly the parseable entries, in listing order |
| Retention.DeleteEach | custom_components/infomaniak_kdrive/backup.py:210-213 | the deletion loop sends one `delete_file` per surplus entry, in order, whatever the server answers; the deleted ids are those not refused |
| Retention.EnforceRetention | custom_components/infomaniak_kdrive/backup.py:199-213 | lists the folder's files; the requests sent are the `delete_file`s of `candidates[:-n]` of the sorted candidates, and the ids deleted are those the server accepted |
| Retention.SurplusCount | custom_components/infomaniak_kdrive/backup.py:209 | the slice `[:-n]` never selects more than the candidates |
| Retention.Surplus | custom_components/infomaniak_kdrive/backup.py:205-208 | the entries asked to be deleted are drawn from the candidates, without repetition beyond theirs |
| Retention.Kept | custom_components/infomaniak_kdrive/backup.py:205-208 | the entries left alone and the surplus together are exactly the candidates |
| Retention.DeleteCalls | custom_components/infomaniak_kdrive/backup.py:211 | one `delete_file` request per entry, for that entry's id, and no other request |
| Retention.Deleted | custom_components/infomaniak_kdrive/backup.py:210-213 | an id is deleted iff it belongs to an entry whose delete request was not refused |
| Retention.NothingToPrune | custom_components/infomaniak_kdrive/backup.py:206-207 | with at most `n` candidates nothing is deleted, and every candidate is kept |
| Retention.PruneSmallestNames | custom_components/infomaniak_kdrive/backup.py:206-213 | with more than `n > 0` candidates, exactly `len - n` are deleted and `n` kept; together they are the candidates, and every deleted name is at most every kept name |
| Retention.PruneOnlyParseable | custom_components/infomaniak_kdrive/backup.py:200-205 | only listed files whose names parse are ever deleted; a folder never is |
| Retention.RetentionNeverPurges | custom_components/infomaniak_kdrive/backup.py:211 | retention sends only `delete_file`, never the trash purge, and each request is for a surplus entry |
| BackupAgent.UploadThreshold | custom_components/infomaniak_kdrive/backup.py:25 | the limit is 943 718 400 bytes; the direct path is taken iff the size is below it, so a size equal to the limit is chunked |
| BackupAgent.UploadPathFor | custom_components/infomaniak_kdrive/backup.py:136-139 | the direct path is chosen iff the size is below 943 718 400 bytes |
| BackupAgent.UploadPathMonotone | custom_components/infomaniak_kdrive/backup.py:136-139 | a size below one that goes direct also goes direct |
| BackupAgent.UploadBackup | custom_components/infomaniak_kdrive/backup.py:129-143 | the agent first uploads the generated name through the path chosen by size; a refused upload raises and stops; otherwise it sends the retention deletions when the host gives a count |
| BackupAgent.Candidates | custom_components/infomaniak_kdrive/backup.py:81-93 | the lookup collects at most the four candidate values; `data` is read only from a truthy config, the `retention_count` attribute from any config |
| BackupAgent.FirstPositive | custom_components/infomaniak_kdrive/backup.py:94-102 | a result is positive and comes from a candidate that converts to it |
| BackupAgent.RetentionCount | custom_components/infomaniak_kdrive/backup.py:75-103 | no manager gives no count; a count is positive and is the conversion of one of the candidates |
| BackupAgent.GetRetentionCount | custom_components/infomaniak_kdrive/backup.py:75-103 | builds the candidates in the order `retention.count`, `automatic.retention.count`, `retention_count`, `config.retention_count` and returns `RetentionCount`; any result is positive |
| BackupAgent.FirstPositiveIsFirst | custom_components/infomaniak_kdrive/backup.py:94-100 | the result is `n` iff some candidate converts to `n > 0` and every candidate before it is `None`, refused by `int()`, or not positive |
| BackupAgent.RetentionCountFirst | custom_components/infomaniak_kdrive/backup.py:84-85 | a positive `retention.count` decides the lookup |
| BackupAgent.AttributeIsLastResort | custom_components/infomaniak_kdrive/backup.py:80-93 | without dict config data, or with a falsy config, the `retention_count` attribute alone decides: if it is positive it is the result, otherwise the result is none |
| BackupAgent.RaiseAbortsLookup | custom_components/infomaniak_kdrive/backup.py:101-102 | a conversion raising anything other than `TypeError`/`ValueError` ends the lookup with no count, even when a later candidate is good |
| BackupAgent.FindArchiveFrom | custom_components/infomaniak_kdrive/backup.py:186 | scanning from a start position finds the first entry from there whose name contains `__id-<id>` and ends in `.tar` |
| BackupAgent.NameMatchesId | custom_components/infomaniak_kdrive/backup.py:186 | the test of download and delete: the name contains `__id-<id>` and ends in `.tar` |
| BackupAgent.FindArchive | custom_components/infomaniak_kdrive/backup.py:186 | the chosen entry is the first one whose name contains `__id-<id>` and ends in `.tar`; none is chosen iff no entry qualifies |
| BackupAgent.DownloadBackup | custom_components/infomaniak_kdrive/backup.py:184-189 | as intended: the file id to stream is that of the first listed file that matches, and the backup is not found iff no file matches |
| BackupAgent.DownloadBackupAsWritten | custom_components/infomaniak_kdrive/backup.py:184-189 | as written: download never succeeds; it is not-found iff no file matches, and otherwise it fails awaiting the stream |
| BackupAgent.DownloadAsWrittenNeverStreams | custom_components/infomaniak_kdrive/backup.py:189 | for a listing holding the archive of `ab`, the code as written fails where the intended download returns the file |
| BackupAgent.DeleteBackup | custom_components/infomaniak_kdrive/backup.py:192-197 | without a matching file nothing is sent and the backup is not found; otherwise `delete_file` then `delete_file_from_trash` go to the first matching file's id, a refused delete stops before the purge, and the result is success iff nothing was refused |
| BackupAgent.DeleteBackupPurgesSameFile | custom_components/infomaniak_kdrive/backup.py:196-197 | a successful delete sends exactly the delete and the purge of one file, while retention's requests are never purges |
| BackupAgent.ListedBackups | custom_components/infomaniak_kdrive/backup.py:148-153 | every listed backup is the parse of some entry's name |
| BackupAgent.ListBackups | custom_components/infomaniak_kdrive/backup.py:145-153 | the loop reports the parse of each listed file whose name parses, skipping the others, in listing order |
| BackupAgent.ListedCoversParsed | custom_components/infomaniak_kdrive/backup.py:148-153 | every entry whose name parses is listed |
| BackupAgent.FirstWithId | custom_components/infomaniak_kdrive/backup.py:178-180 | the first backup whose id equals the one asked for (no earlier backup has that id); none is found iff no backup has that id |
| BackupAgent.GetBackup | custom_components/infomaniak_kdrive/backup.py:177-181 | `get` compares ids exactly: it returns the backup of the first listed file whose name parses to that id, and not-found iff no file parses to that id |
| BackupAgent.FirstListedWithId | custom_components/infomaniak_kdrive/backup.py:177-181 | the backup found among the listed backups comes from the first file whose name parses with that id |
| BackupAgent.GottenIsDownloadable | custom_components/infomaniak_kdrive/backup.py:184-194 | a backup that `get` finds is always found by download and delete |
| BackupAgent.IdPrefixMatches | custom_components/infomaniak_kdrive/backup.py:186 | a written name matches `__id-<p>` for every prefix `p` of its id |
| BackupAgent.SubstringMatchPicksOtherBackup | custom_components/infomaniak_kdrive/backup.py:186 | with archives for ids `abc` and then `ab`, download of `ab` takes the archive of `abc`, while `get` returns `ab` |

## Left out

- The chunked upload path. The client defines no `upload_stream_to_folder_by_chunk`, so as written every upload from 900 MiB up raises `AttributeError` at that call, and retention never runs after it. `BackupAgent.UploadBackup` does not capture that. It treats the chunked upload as one opaque request, like the direct one, whose failure is given by the refused set. Nothing about chunking itself is modelled.
- The kDrive client's I/O: HTTP requests, headers, temp-file spooling, streaming, and the size fallback `get_file_size`. A request is a value in the log, and its failure is membership in the refused set.
- Other `Request` failures: a listing or download that fails is not modelled. The listing is an input, taken in `UploadBackup` after the upload.
- Home Assistant glue: agent registration, listeners, lifecycle, OAuth and the configuration form.
- `_get_current_ha_version`, and the `AgentBackup` fields that `async_list_backups` fills in beyond the parse/skip decision. Examples are the size fallback and the default version.
- `int()` on the host's values is abstracted: a value either converts to some `n`, is refused (`TypeError`/`ValueError`), or raises something else. Exceptions from reading the configuration itself are not modelled.
- `BackupAgent.UploadBackup`: a `size` of `None`, which would raise `TypeError` at the comparison, is not modelled; the size is an integer.
- `Retention.SortByName` is a stable insertion sort on values, standing in for Python's in-place stable `list.sort`. Stability is built into the definition but not proved as a lemma.
- Const.ParseFolderUrl: `int()` is modelled with no limit on the number of digits. CPython 3.11 and later raise `ValueError` on more than 4300 digits, so the source raises on such a group where the model returns the number. `Text.DecimalRoundTrip` and `Const.FolderUrlRoundTrip` hold in CPython only below that limit.
- `\d` is taken as ASCII digits only. Python's `\d` on `str` also accepts other Unicode decimal digits.
- `lower()` is modelled on ASCII letters only. This is exact for the comparison with `true`, since no non-ASCII character lowers to `t`, `r`, `u` or `e`.
- `BackupFilename.ParseMakeRoundTrip` assumes more than "no `__` in the fields": it also needs each of stem, id and version not to end in `_`. `BackupFilename.TrailingUnderscoreLosesId` shows why.
- `Const.FolderUrlRoundTrip` covers a URL that ends after the folder digits or continues with `/`. A final newline, which Python's `$` also accepts, is in the matching relation (`PathEnd`) but not in that lemma.

## Findings

| source | as written | input that shows it | evidently intended | confidence | as-written member | corrected member |
|---|---|---|---|---|---|---|
| custom_components/infomaniak_kdrive/backup.py:189 | the agent awaits the result of `download_file_stream`, an async generator (client.py:65-70), which raises `TypeError` whenever an archive matches | a listing with the file `x__id-ab__ver-1__prot-false.tar` and backup id `ab` | return the generator unawaited, so the matching file is streamed | high; not executed | BackupAgent.DownloadBackupAsWritten | BackupAgent.DownloadBackup |
