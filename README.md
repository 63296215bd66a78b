# VideoVault core in Dafny

VideoVault is a Flask application that downloads YouTube videos, keeps a small
JSON record store of users and videos, re-uploads videos to YouTube and Google
Drive, and archives large files on a Telegram channel by cutting them into
chunks. This project models and proves the parts of it that carry real logic:

- **Chunked storage on Telegram** (`telegram_utils.py`, module `ChunkStore`).
  - `TelegramStorage.upload_file` reads a file through one sequential handle in
    pieces of `int(MAX_CHUNK_SIZE)` bytes. It sends every piece as a document and
    returns a manifest with the ordered document ids.
  - `download_file` fetches the documents named by a list of ids and writes
    their concatenation to an output file.
  - The channel is a class holding a map from fresh ids to documents. The
    answer of each `send_document` request is an input (`outcomes`). The local
    disk is a map from paths to byte strings.
- **The JSON record store** (`json_database.py`, module `JsonDatabase`).
  - A class with the user list and the video list as `seq` fields.
  - Lookups are early-return loops. Creation appends a record with id `len+1`.
  - `update_video` assigns the given keys one by one.
  - `get_user_videos` keeps the user's videos, then sorts them newest first.
  - `get_all_videos` sorts every video newest first, with no filter.
- **Helpers** (`utils.py`, module `Utils`):
  - `format_duration`, proved to read back as the number of seconds for a
    non-negative input (a negative input reads back as its value mod 3600);
  - `safe_filename`;
  - `generate_temp_filename`, with the clock reading as a parameter and its
    defaults `yt_video` and `mp4`;
  - the host test of `is_valid_youtube_url`.
- **Keep-alive bookkeeping** (`keep_alive.py`, module `KeepAliveMonitor`).
  - A class with the failed-ping counter, the capped restart counter and the
    time of the last restart.
  - The ping result and the current time are inputs.
  - A ghost history of restart times carries the cooldown invariant.
- **Deployment settings** (`replit_deployment.py`, module `Deployment`).
  - The configuration record and its `set_*` / `record_deployment` updates.
  - `update_environment_variables`, in three stages:
    - a reading loop that parses `.env` lines into an insertion-ordered dict;
    - `dict.update`;
    - a writing loop that emits one `key=value` line per entry.
  - Dicts are sequences of pairs with distinct keys.
  - A line such as `  #x=1` is not a comment, because the `#` test looks at the
    unstripped line. The model keeps that behaviour.
- **Pure fragments of `app.py`** (module `AppFragments`): YouTube-id extraction
  and the fallback id, tag splitting and cleanup, privacy normalisation, title
  and description truncation, and the download content type.

Shared string machinery lives in `Strings`. It models `str.find`, `in`,
`split`, `join`, `strip` with Python's whitespace set, decimal formatting and
string ordering. `SplitPieces` locates the pieces of `s.split(sep)[1].split(term)[0]`.
`Wrappers` holds `Option`, `Result` and `Min`.

Three edge behaviours of the code, which the model keeps:

- A zero-byte file gives zero chunks and an empty id list, not one empty chunk.
  Downloading that list fails, so such a file cannot be restored.
- `download_file` fetches every chunk before it opens the output. A failed
  fetch therefore leaves the output untouched rather than partially written.
- There are no retries: the first failed chunk aborts the upload.

## Model

| member | source | states |
|---|---|---|
| ChunkStore.ChunkCount | telegram_utils.py:97 | the count c is the integer ceiling of n/m: (c-1)·m < n ≤ c·m, and c = 0 exactly for an empty file |
| ChunkStore.ChunkCountOfDivision | telegram_utils.py:97 | with n = q·m + r, r < m, the count is q when r = 0 and q+1 otherwise |
| ChunkStore.ChunkLengths | telegram_utils.py:114 | every chunk but the last is exactly m bytes; the last holds n-(c-1)·m bytes, at least one |
| ChunkStore.LastChunkLength | telegram_utils.py:114 | the last chunk of a non-empty file holds n mod m bytes, or m when m divides n |
| ChunkStore.ChunkRange | telegram_utils.py:108-118 | byte j of chunk i is byte i·m+j of the file |
| ChunkStore.NextRead | telegram_utils.py:114 | reading m bytes at the handle position after k chunks yields chunk k and advances to min((k+1)·m, n) |
| ChunkStore.ChunksArePrefix | telegram_utils.py:108-118 | the first k chunks written one after another are exactly the first min(k·m, n) bytes of the file |
| ChunkStore.ChunksCoverFile | telegram_utils.py:97-118 | all chunks of a file, concatenated, are the file |
| ChunkStore.FiveMegabyteExample | telegram_utils.py:97-118 | 5,000,000 bytes in 2,000,000-byte chunks: 3 chunks of 2,000,000, 2,000,000 and 1,000,000 bytes that reassemble the file |
| ChunkStore.Ceil | telegram_utils.py:97 | `math.ceil`: x ≤ r < x+1 |
| ChunkStore.AsWrittenCountAtMost | telegram_utils.py:97 | the float-based count never exceeds the integer count |
| ChunkStore.AsWrittenCountDropsLastByte | telegram_utils.py:97 | for 2·2040109465+1 bytes the float count is 2 while 3 chunks are needed, so 2·2040109465 < n bytes are covered |
| ChunkStore.AsWrittenUploadStoresPrefix | telegram_utils.py:108-118 | with the float count, the stored chunks are only the prefix of min(count·m, n) bytes |
| ChunkStore.ChunkCaptionsDistinct | telegram_utils.py:62 | every chunk after the first is captioned "Chunk {n}", and those captions are pairwise distinct |
| ChunkStore.ChunkFilenamesDistinct | telegram_utils.py:70 | distinct chunk numbers give distinct names "chunk_{n}.bin" |
| ChunkStore.Basename | telegram_utils.py:94 | the file name holds no '/'; it is the text after the last '/' of the path, or the whole path when it has no '/' |
| ChunkStore.Channel.SendDocument | telegram_utils.py:66-76 | a delivered document is stored under a fresh id and nothing else changes; a reply without a document or an error leaves the channel unchanged |
| ChunkStore.Channel.GetFile | telegram_utils.py:142-143 | returns the stored bytes of a known id and an error for an unknown one |
| ChunkStore.TelegramStorage.constructor | telegram_utils.py:43-50 | the storage uses the given channel and a positive chunk size |
| ChunkStore.TelegramStorage.UploadChunk | telegram_utils.py:52-79 | success iff the document is delivered; it is stored with caption ChunkCaption and name ChunkFilename under a fresh id; a missing document is a MissingDocument error, a refusal a TelegramError, both with the channel unchanged |
| ChunkStore.TelegramStorage.UploadFile | telegram_utils.py:81-135 | missing path: FileNotFound with the channel unchanged; success iff every chunk is delivered; the manifest has the basename, the size, ⌈n/m⌉ chunks and one fresh id per chunk, in order, under which chunk i is stored with its caption and name; the channel then holds exactly the old documents plus those ids and the serial has advanced by the chunk count; on failure, the error of the first failed chunk, with the chunks sent before it left stored; earlier documents are never altered |
| ChunkStore.TelegramStorage.SendChunks | telegram_utils.py:108-126 | the loop succeeds iff every chunk is delivered, returning ids serial, serial+1, … one per chunk; the channel then holds the old documents plus chunk k under id serial+k; on failure it returns the first failure's error and holds exactly the chunks sent before it |
| ChunkStore.Serials | telegram_utils.py:104-126 | the id list after k chunks has length k |
| ChunkStore.SerialsAt | telegram_utils.py:104-126 | the i-th id of the list is serial+i |
| ChunkStore.UploadedStep | telegram_utils.py:120-126 | sending one more chunk stores it under the next serial |
| ChunkStore.UploadedAt | telegram_utils.py:108-126 | after k chunks, an id is stored iff it was before or its serial is one of the k new ones; a new one holds its chunk, an old one its old document |
| ChunkStore.UploadedContents | telegram_utils.py:108-126 | the same for every id at once, with the new ids fresh |
| ChunkStore.SendStep | telegram_utils.py:114-126 | one loop step: the read advances to min((k+1)·m, n), the id list grows by serial+k and the channel by chunk k |
| ChunkStore.AllDeliveredStep | telegram_utils.py:120-126 | one more delivered chunk extends the all-delivered prefix |
| ChunkStore.FirstUndelivered | telegram_utils.py:108-135 | the index of the first undelivered chunk, which is the count iff all were delivered |
| ChunkStore.FirstUndeliveredIs | telegram_utils.py:108-135 | a failure with only deliveries before it is the first undelivered chunk |
| ChunkStore.TelegramStorage.DownloadFile | telegram_utils.py:148-178 | no ids: NoChunkIds; success iff every id is known; the output path then holds the concatenation of the documents in id order and the path is returned; on failure the disk is unchanged |
| ChunkStore.UploadThenDownload | telegram_utils.py:81-178 | uploading a non-empty file through a channel that delivers everything and downloading the manifest's ids reproduces the file, and original_size is its length |
| ChunkStore.EmptyFileIsNotRestorable | telegram_utils.py:97-154 | a zero-byte file uploads as 0 chunks with no ids, and downloading that list fails with NoChunkIds and writes nothing |
| JsonDatabase.NewVideoFields | json_database.py:88-105 | the new video has exactly the schema's keys plus id and download_date; given fields are copied, missing ones defaulted, unknown ones dropped |
| JsonDatabase.NewVideoDefault | json_database.py:90-104 | a schema field missing from the argument takes its default |
| JsonDatabase.NewVideoDefaults | json_database.py:91-97 | missing title becomes 'Unknown' and missing file_size 0 |
| JsonDatabase.NewVideoFlagsDefaultFalse | json_database.py:98-102 | missing download_success, uploaded_to_drive and uploaded_to_youtube become False |
| JsonDatabase.NewVideoIdsDefaultNull | json_database.py:100-104 | missing drive_file_id, drive_folder_id, youtube_upload_id and user_id become None |
| JsonDatabase.FirstIndex | json_database.py:41-44 | the index of the first record whose key equals the value, or None when no record matches |
| JsonDatabase.FindFirst | json_database.py:41-44 | the early-return loop returns the first matching record, or None |
| JsonDatabase.LookupSequentialId | json_database.py:64 | with ids 1..n in order, id k is found at position k-1 |
| JsonDatabase.InsertByDate | json_database.py:130 | inserting adds exactly the one record (as a multiset) |
| JsonDatabase.InsertByDateSorted | json_database.py:130 | inserting into a newest-first list keeps it newest first |
| JsonDatabase.PrependSorted | json_database.py:130 | a record not older than every record of a newest-first list can lead it |
| JsonDatabase.InsertNotNewer | json_database.py:130 | inserting a record older than the head into the tail keeps every record no newer than the head |
| JsonDatabase.SortByDate | json_database.py:130 | the result is a permutation of the input, ordered by download date non-increasing |
| JsonDatabase.OwnedBy | json_database.py:128 | exactly the records whose user_id matches, each as often as in the input |
| JsonDatabase.JSONDatabase.constructor | json_database.py:9-25 | a file that exists keeps its list, a missing one starts as the empty list |
| JsonDatabase.JSONDatabase.GetUserById | json_database.py:38-44 | the first user with that id; with sequential ids, id k is the k-th user created |
| JsonDatabase.JSONDatabase.GetUserByEmail | json_database.py:46-52 | the first user with that email; None iff no user has it |
| JsonDatabase.JSONDatabase.CreateUser | json_database.py:54-72 | a taken email returns its record and leaves the users alone; otherwise exactly one record with id len+1 and the given fields is appended; sequential ids stay sequential |
| JsonDatabase.JSONDatabase.GetVideoById | json_database.py:75-81 | the first video with that id; with sequential ids, id k is the k-th video created |
| JsonDatabase.JSONDatabase.CreateVideo | json_database.py:83-109 | appends exactly NewVideo(len+1, …) and returns it; sequential ids stay sequential |
| JsonDatabase.JSONDatabase.UpdateVideo | json_database.py:111-123 | the first record with the id gets the given keys, and every other record and field is kept; an unknown id returns None and changes nothing |
| JsonDatabase.JSONDatabase.GetUserVideos | json_database.py:125-131 | exactly the user's videos, newest first |
| JsonDatabase.JSONDatabase.GetAllVideos | json_database.py:133-138 | every video, newest first |
| Utils.Pad2 | utils.py:44 | `{n:02d}`: at least two digits that read back as n, exactly two below 100 |
| Utils.FormatDuration | utils.py:26-46 | zero gives "00:00"; below an hour the result has 5 characters |
| Utils.FormatFromAnHour | utils.py:43-44 | from an hour on, the shape is HH:MM:SS of hours, minutes and seconds |
| Utils.FormatBelowAnHour | utils.py:45-46 | below an hour, the shape is MM:SS |
| Utils.FormatDurationFields | utils.py:36-46 | three ':'-separated fields from an hour on, two otherwise |
| Utils.ClockArithmetic | utils.py:39-41 | hours·3600 + minutes·60 + seconds recombine to the input |
| Utils.ClockValueTwo | utils.py:46 | "MM:SS" reads back as m·60+s |
| Utils.ClockValueThree | utils.py:44 | "HH:MM:SS" reads back as h·3600+m·60+s |
| Utils.ReadsBackAtZero | utils.py:36-37 | "00:00" reads back as 0 |
| Utils.ReadsBackWithinAnHour | utils.py:39-46 | for 0 < s < 3600 the text reads back as s |
| Utils.ReadsBackFromAnHour | utils.py:39-44 | for s ≥ 3600 the text reads back as s |
| Utils.ReadsBackBelowZero | utils.py:39-46 | a negative s reads back as s mod 3600 |
| Utils.FormatDurationReadsBack | utils.py:26-46 | the formatted text reads back as the seconds for s ≥ 0, and as s mod 3600 for s < 0 |
| Utils.KeepAllowed | utils.py:58-59 | only letters, digits, ' ', '.', '_' and '-' are kept |
| Utils.KeepAllowedCounts | utils.py:58-59 | every allowed character is kept, as often as it occurs |
| Utils.KeepAllowedAppend | utils.py:58-59 | the filter works character by character: it distributes over concatenation |
| Utils.KeepAllowedIsSubsequence | utils.py:58-59 | the kept characters are a subsequence of the input |
| Utils.KeepAllowedIdentity | utils.py:58-59 | a string of allowed characters is kept whole |
| Utils.SafeFilename | utils.py:58-59 | only allowed characters, never '/', never a trailing space |
| Utils.SafeFilenameIsSubsequence | utils.py:58-59 | the safe name is an order-preserving subsequence of the input |
| Utils.SafeFilenameDropsOnlyTrailingSpaces | utils.py:58-59 | the safe name is the filtered name minus trailing spaces only |
| Utils.SafeFilenameIdempotent | utils.py:58-59 | applying it twice changes nothing more |
| Utils.GenerateTempFilename | utils.py:72-73 | prefix + "_" + decimal timestamp + "." + extension, located by position |
| Utils.DefaultTempFilename | utils.py:61-73 | without arguments the name is "yt_video_" + decimal timestamp + ".mp4" |
| Utils.TempFilenameTimestamp | utils.py:72-73 | the timestamp reads back from the name |
| Utils.TempFilenameInjective | utils.py:72-73 | names made at different seconds differ |
| Utils.IsValidYoutubeNetloc | utils.py:19-21 | true iff the host contains "youtube.com" or "youtu.be" |
| Utils.AcceptsAnyHostContaining | utils.py:19-21 | any host with either name inside it is accepted |
| Utils.RejectsOtherHosts | utils.py:19-21 | "vimeo.com" and the empty host are rejected |
| KeepAliveMonitor.SpacedPairwise | keep_alive.py:83-88 | neighbours spaced by the gap imply every pair is |
| KeepAliveMonitor.KeepAlive.constructor | keep_alive.py:45-56 | counters at zero, no restart yet (datetime.min), invariant established |
| KeepAliveMonitor.KeepAlive.PingApp | keep_alive.py:58-74 | alive iff status 200; a 200 clears the failure count, anything else adds exactly one |
| KeepAliveMonitor.KeepAlive.RestartApp | keep_alive.py:76-106 | restarts iff under the cap and out of the cooldown; a refusal changes nothing; a restart adds one attempt, records now and keeps the invariant |
| KeepAliveMonitor.KeepAlive.CheckAndRestart | keep_alive.py:108-116 | with threshold ≥ 1 the failure count ends below it; reaching the threshold clears it whether or not the restart happened; below it, restarts are untouched |
| KeepAliveMonitor.RestartsRespectCooldown | keep_alive.py:83-103 | any two successful restarts are at least the cooldown apart |
| KeepAliveMonitor.RestartsCapped | keep_alive.py:78-100 | the restart count never passes the cap |
| Deployment.DefaultConfig | replit_deployment.py:51-71 | auto_deploy False, deployment_count 0, last_deployment None, schedule off, keep-alive on, production without debug |
| Deployment.ReplitDeployment.constructor | replit_deployment.py:42-71 | the stored configuration, or the default when there is none |
| Deployment.ReplitDeployment.SetSchedule | replit_deployment.py:84-93 | only the schedule sub-record is replaced |
| Deployment.ReplitDeployment.SetKeepAlive | replit_deployment.py:95-108 | only the keep-alive sub-record is replaced |
| Deployment.ReplitDeployment.SetEnvironmentMode | replit_deployment.py:110-121 | only the environment sub-record is replaced |
| Deployment.ReplitDeployment.RecordDeployment | replit_deployment.py:123-129 | the count goes up by exactly one and the timestamp is recorded; nothing else changes |
| Deployment.ReplitDeployment.SetupAutoDeployment | replit_deployment.py:131-148 | auto_deploy becomes True and nothing else changes |
| Deployment.ReplitDeployment.UpdateEnvironmentVariables | replit_deployment.py:179-205 | the text written is the serialisation of the parsed file updated with the new variables |
| Deployment.ReadEnv | replit_deployment.py:184-191 | the reading loop builds ParseEnv of the text, with distinct keys |
| Deployment.WriteEnv | replit_deployment.py:196-199 | the writing loop produces one "key=value\n" line per entry, in order |
| Deployment.KeySetSpec | replit_deployment.py:191 | a key is in the dict iff some entry has it |
| Deployment.Lookup | replit_deployment.py:194 | a value is found iff the key is present |
| Deployment.LookupFound | replit_deployment.py:194 | a found value is the value of an entry with that key |
| Deployment.Assign | replit_deployment.py:191 | the keys after `d[k] = v` are the old keys plus k |
| Deployment.AssignLookup | replit_deployment.py:191 | after `d[k] = v`, k maps to v and every other key to its old value |
| Deployment.AssignNew | replit_deployment.py:191 | a new key is appended at the end |
| Deployment.AssignExisting | replit_deployment.py:191 | a present key keeps its position and takes the new value, and nothing else moves |
| Deployment.AssignDistinct | replit_deployment.py:191 | assignment keeps the keys distinct |
| Deployment.Merge | replit_deployment.py:194 | the keys after `update` are the union of both key sets |
| Deployment.MergeDistinct | replit_deployment.py:194 | `update` keeps the keys distinct |
| Deployment.MergeIsOverrideThenAppend | replit_deployment.py:194 | `update` keeps existing keys in place with the new values, then appends the new keys in the order given |
| Deployment.MergeStepExisting | replit_deployment.py:194 | one step of `update` for a key already present |
| Deployment.MergeStepNew | replit_deployment.py:194 | one step of `update` for a new key |
| Deployment.OverrideStepExisting | replit_deployment.py:194 | assigning a present key overwrites it in place in the overridden dict |
| Deployment.OverrideStepNew | replit_deployment.py:194 | assigning a new key appends it after the overridden entries |
| Deployment.NewEntriesStep | replit_deployment.py:194 | assigning the first new entry does not change which later entries are new |
| Deployment.NewEntriesCongruent | replit_deployment.py:194 | the new entries depend only on which keys are present |
| Deployment.NewEntriesFrom | replit_deployment.py:194 | every new entry comes from the update |
| Deployment.UniversalNewlines | replit_deployment.py:187-188 | text-mode reading leaves no '\r' |
| Deployment.UniversalNewlinesIdentity | replit_deployment.py:187-188 | text without '\r' reads unchanged |
| Deployment.ParseLines | replit_deployment.py:188-191 | the dict read from the lines has distinct keys |
| Deployment.ParseLinesPrefix | replit_deployment.py:188-191 | one more line either leaves the dict alone or assigns its entry |
| Deployment.CommentsAndBlankLinesIgnored | replit_deployment.py:189 | a line with no '=' or starting with '#' contributes nothing |
| Deployment.RepeatedKeyLastValueWins | replit_deployment.py:191 | a repeated key keeps its first position and takes the later value |
| Deployment.EnvLineHasEquals | replit_deployment.py:189 | a written line contains '=' |
| Deployment.EnvLineNotComment | replit_deployment.py:189 | a written line of a well-formed key does not start with '#' |
| Deployment.EnvLineStrips | replit_deployment.py:190 | a written line strips to key=value |
| Deployment.ParseEnvLine | replit_deployment.py:188-199 | a written line parses back to its entry |
| Deployment.SerializeSnoc | replit_deployment.py:198-199 | one more entry appends its line |
| Deployment.EnvLinesSnoc | replit_deployment.py:198-199 | one more entry appends its line to the line list |
| Deployment.LinesCons | replit_deployment.py:188 | the first line of the text ends at the first '\n' |
| Deployment.LinesOfSerialized | replit_deployment.py:188-199 | the written text splits into the written lines |
| Deployment.ParseLinesOfEntries | replit_deployment.py:188-199 | parsing the written lines rebuilds the dict |
| Deployment.SerializeNoCarriageReturn | replit_deployment.py:197-199 | the written text holds no '\r' |
| Deployment.EnvRoundTrip | replit_deployment.py:184-199 | reading back a written file gives the written dict, for well-formed entries |
| Deployment.OverrideWellFormed | replit_deployment.py:194 | overriding well-formed entries with well-formed values keeps them well formed |
| Deployment.WellFormedAppend | replit_deployment.py:194 | well-formed lists append to a well-formed list |
| Deployment.MergeWellFormed | replit_deployment.py:194 | the updated dict of well-formed entries is well formed |
| Deployment.UpdatedFileReadsBack | replit_deployment.py:184-199 | reading back the updated file gives the old keys in place with their new values, then the new keys in order |
| AppFragments.ExtractYoutubeId | app.py:628-634 | an id is found iff the URL has one of the three markers |
| AppFragments.ContainsLonger | app.py:629-632 | a URL containing "youtube.com/" + marker contains the marker |
| AppFragments.ShortsIdFollowsMarker | app.py:629-630 | a shorts URL's id sits right after the first "shorts/" and has no '?' |
| AppFragments.ShortsIdStops | app.py:629-630 | a shorts URL's id runs to the end of the URL, to the next '?' or to the next "shorts/" |
| AppFragments.WatchIdFollowsMarker | app.py:631-632 | a watch URL's id sits right after the first "watch?v=" and has no '&' |
| AppFragments.WatchIdStops | app.py:631-632 | a watch URL's id runs to the end of the URL, to the next '&' or to the next "watch?v=" |
| AppFragments.ShortLinkIdFollowsMarker | app.py:633-634 | a youtu.be id sits right after the first "youtu.be/" and has no '?' |
| AppFragments.ShortLinkIdStops | app.py:633-634 | a youtu.be id runs to the end of the URL, to the next '?' or to the next "youtu.be/" |
| AppFragments.FallbackYoutubeId | app.py:379 | the text after the last "v=" when there is one, otherwise after the last '/'; a suffix of the URL either way, and the whole URL when it has neither |
| AppFragments.SplitTags | app.py:805 | no tags iff the field is empty; otherwise the comma-free pieces that join back to the field |
| AppFragments.MapAt | app.py:907 | the i-th stripped tag is the strip of the i-th tag |
| AppFragments.MapAppend | app.py:907 | stripping distributes over concatenation |
| AppFragments.NonBlank | app.py:907 | the kept strings are non-empty members of the input, and every non-empty string is kept as often as it occurs |
| AppFragments.NonBlankOfBlanks | app.py:907 | all-empty input keeps nothing |
| AppFragments.NonBlankAppend | app.py:907 | dropping blanks distributes over concatenation, so order is kept |
| AppFragments.NonBlankStripped | app.py:907 | cleanup never lengthens the list, keeps no blank tag, and keeps every non-blank stripped tag as often as it occurs |
| AppFragments.NonBlankStrippedKeeps | app.py:907 | every tag that is not blank once stripped is kept, stripped |
| AppFragments.NonBlankStrippedClean | app.py:907 | every kept tag is non-empty and already stripped |
| AppFragments.NonBlankStrippedAppend | app.py:907 | cleaning a concatenation concatenates the cleanings |
| AppFragments.BlankTagsVanish | app.py:907 | blank tags clean to nothing |
| AppFragments.CleanTags | app.py:906-910 | at most 30 tags; no tags gives ['youtube', 'upload']; otherwise the first min(n, 30) of the n cleaned tags, each non-empty and stripped |
| AppFragments.TakeClean | app.py:907-908 | the first 30 cleaned tags are non-empty and stripped |
| AppFragments.BlankTagsGiveNoTags | app.py:906-910 | a non-empty list of blank tags cleans to [], not to the defaults |
| AppFragments.OriginalTags | app.py:686 | the original tags when there are some, otherwise ['youtube', 'upload', 'auto'] |
| AppFragments.NormalizePrivacy | app.py:913-914 | always public, private or unlisted; those pass unchanged and anything else becomes private |
| AppFragments.NormalizePrivacyIdempotent | app.py:691-692 | normalising twice changes nothing more |
| AppFragments.SnippetTitle | app.py:919 | a prefix of the title of at most 100 characters, the whole title when it fits |
| AppFragments.SnippetDescription | app.py:920 | a prefix of the description of at most 5000 characters, the whole of it when it fits |
| AppFragments.ContentType | app.py:1036-1041 | '.mp4' gives video/mp4, '.mp3' gives audio/mpeg, anything else application/octet-stream |
| AppFragments.ContentTypeOfName | app.py:1036-1041 | any stem with .mp4, .mp3 or .bin gets the matching type |
| SplitPieces.Before | app.py:630 | `t.split(sep)[0]` starts t, holds no sep, and is followed by sep or the end |
| SplitPieces.BeforeIsFirstPiece | app.py:630 | Before is the first piece of split |
| SplitPieces.After | app.py:630 | `s.split(sep)[1]` sits right after the first sep and holds no sep |
| SplitPieces.AfterIsSecondPiece | app.py:630 | After is the second piece of split |
| SplitPieces.TextAfter | app.py:630 | the extracted text holds neither the terminator nor the marker |
| SplitPieces.TextAfterPosition | app.py:630 | the extracted text sits right after the first marker |
| SplitPieces.TextAfterStops | app.py:630 | the extracted text is followed by the end, the terminator or the marker |
| SplitPieces.TextAfterEnds | app.py:630 | the extracted text, located in the whole string, is followed by the end, the terminator or the marker |
| SplitPieces.StopInWhole | app.py:630 | a stop found in a suffix of the string is a stop in the string |
| SplitPieces.TextAfterIsSplitPieces | app.py:630 | TextAfter is `s.split(sep)[1].split(term)[0]` |
| Strings.Find | app.py:629 | the position of the first occurrence, or None iff there is none |
| Strings.In | app.py:629 | the `in` test is substring containment |
| Strings.Split | app.py:805 | at least one piece; two or more iff the separator occurs |
| Strings.SplitRejoins | app.py:805 | the pieces join back to the input and hold no separator |
| Strings.LastPieceIsSuffix | app.py:379 | the last piece ends the string, right after a separator when there are two pieces or more |
| Strings.LStrip | replit_deployment.py:190 | removes exactly the leading whitespace |
| Strings.RStrip | utils.py:59 | removes exactly the trailing whitespace |
| Strings.StripKeeps | replit_deployment.py:190 | stripping keeps every non-whitespace character |
| Strings.StripIdempotent | app.py:907 | stripping twice changes nothing more |
| Strings.Take | app.py:919 | `s[:n]`: a prefix of length min(n, len), the whole of s when it fits |
| Strings.DecimalRoundTrip | utils.py:73 | the decimal text of n reads back as n |
| Strings.DecimalInjective | utils.py:73 | different numbers have different decimal texts |
| Strings.LessOrEqualTotal | json_database.py:130 | string order is total |
| Strings.LessOrEqualTransitive | json_database.py:130 | string order is transitive |

## Left out

- The Telegram Bot API, `asyncio.run`, `tqdm` and the temporary chunk files are not modelled. The channel is a map, and each request's answer is an input.
- Temporary-file cleanup and the shared `chunk_{n}.bin` temp names are not modelled. Both are file-system housekeeping and concurrency concerns, and files left behind after an error are not tracked.
- ChunkStore.TelegramStorage.UploadFile: uses the integer chunk count, the corrected behaviour. The float count of the source appears only under Findings, and division rounding in the float quotient is ignored there.
- JSON (de)serialisation, the data directory and `datetime.utcnow` are not modelled. Both lists live in memory, the constructor takes the contents of the files that exist, and timestamps are parameters.
- Python's `1 == True` is not modelled: a boolean value never equals an integer id in the lookups.
- JsonDatabase.SortByDate: does not state stability. Equal dates keep their input order, as Python's sort does, but this is not proved.
- JsonDatabase.DateKey: treats a non-string `download_date` as "". Python would compare such values with the other type or raise.
- Records are maps from keys to null, bool, int or string values. Floats, lists and nested objects are not modelled.
- `isalpha` and `isdigit` are modelled on ASCII only. Python also accepts other Unicode letters and digits.
- Utils.FormatDuration: takes an integer. `None` and floats, which `not seconds` also handles, are not modelled.
- `urlparse` is not modelled: the host test takes the network location as input. The exception branch of `is_valid_youtube_url` is left out with it.
- The `try`/`except` around the id extraction in app.py is not modelled. It cannot fire once a marker is present.
- The Flask routes, the YouTube and Drive uploads, the downloader fallbacks and OAuth are not modelled. They are I/O and foreign libraries.
- KeepAlive threading (`monitor_loop`, `start`, `stop`), `requests.get` and `os.system` are not modelled. The ping result and the clock are inputs.
- The exception branch of `restart_app` is not modelled. It concerns a failing `os.system` call.
- `datetime.min` is modelled as "no restart yet", which never blocks.
- Configuration persistence is not modelled: `save_config`, the JSON file and its boolean result.
- `_load_config` accepting any JSON shape is not modelled. The constructor takes an optional well-typed configuration.
- The `os.environ` writes in `set_keep_alive` and `set_environment_mode` are not modelled. These are process-global side effects.
- Writing `.replit`, `configure_scheduled_run`, `print_status` and `main` are not modelled. They are file output and a command-line interface.
- Deployment.ReplitDeployment.UpdateEnvironmentVariables: returns the written text instead of True. The exception path that returns False is not modelled.

## Findings

| source | as written | input that shows it | evidently intended | confidence | as-written member | corrected member |
|---|---|---|---|---|---|---|
| telegram_utils.py:97 | the chunk count is `math.ceil(file_size / MAX_CHUNK_SIZE)` with the float 1.9·2^30 (line 22), while each read takes `int(MAX_CHUNK_SIZE)` = 2040109465 bytes (line 114) | a file of 2·2040109465+1 bytes: the float count is 2, so only 2·2040109465 bytes are read and the last byte is never uploaded | the count of integer-sized reads, ⌈n / 2040109465⌉, so the chunks cover the whole file | not executed | ChunkStore.AsWrittenCountDropsLastByte | ChunkStore.ChunksCoverFile |
