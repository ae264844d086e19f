# yt-backend-render core, modelled in Dafny

`yt-backend-render/main.py` is a small FastAPI service in front of yt-dlp, SQLite and the
YouTube Data API. Most of it is glue. This project models the five pieces of the service's
own logic and proves what each promises.

- **URL normaliser** (`UrlCleaner`). `clean_youtube_url` strips the input, then rewrites a
  shorts link to a watch URL, or cuts out a watch / youtu.be link, or returns the stripped
  text. Both regular expressions become explicit leftmost searches over the literal
  prefixes they expand to: optional `s`, optional `www.`, and for the second pattern two
  hosts. Each prefix is followed by a greedy run of at least six `[\w-]` characters.
  Python's `str.strip()` with its whitespace set is in `Text`.
- **Channel cache** (`ChannelCache`). The `channels` table is a class holding a map from
  channel id to row.
  - `upsert_channel` is a method proved against the function `Upserted`: insert, or
    update with `COALESCE`; the clock is a parameter.
  - `list_channels` returns every row once, ordered by `last_used_at` descending. It is a
    selection of the most recent remaining row, repeated until no row is left.
- **Download file name** (`DownloadName`). This is the title expression of `/download` and
  the `re.sub` that makes it safe for `Content-Disposition`.
- **Chunked read loop** (`ChunkedStream`). `stream_and_delete` reads the file 1 MiB at a
  time until a read comes back empty, then removes the file.
  - The open file is a reader object whose position each `read` advances.
  - The downloads directory (main.py:34-35) is a class holding a map from path to bytes: a
    stand-in for the file system into which yt-dlp writes the video (main.py:178-186).
  - The client is modelled by how many chunks it asks for before it closes the stream.
- **Upload-list mapping** (`UploadList`). `channel_videos` turns each playlist item into a
  video summary, including the medium/default choice of the thumbnail.

The source promises more than its code does in one place, and the model follows the code.
The module docstring (main.py:7) says `/download` streams the video and deletes it after, and
the endpoint's docstring (main.py:156) says it streams the video and deletes the temporary
file. In the code, `os.remove` (main.py:192-197) follows the `with` block of the generator and
is not in a `finally`. A client that stops reading early leaves the generator suspended at its
`yield`, so the file stays. `ChunkedStream.Downloads.StreamAndDelete` states both outcomes.

## Model

| member | source | states |
|---|---|---|
| Text.TrimStart | yt-backend-render/main.py:80 | the result is a suffix of the input, everything removed is whitespace, and the result does not start with whitespace |
| Text.TrimEnd | yt-backend-render/main.py:80 | the result is a prefix of the input, everything removed is whitespace, and the result does not end with whitespace |
| Text.Strip | yt-backend-render/main.py:80 | `str.strip()` is a contiguous slice of the input; everything cut on either side is whitespace; the slice neither starts nor ends with whitespace |
| Text.StripUnchanged | yt-backend-render/main.py:80 | a string with no whitespace at either end is unchanged by strip |
| Text.StripIdempotent | yt-backend-render/main.py:80 | stripping twice is stripping once |
| UrlCleaner.IdRun | yt-backend-render/main.py:82 | the greedy `[\w-]*` run: it stays inside the string, every character in it is an id character, and the character after it is not |
| UrlCleaner.PrefixMatches | yt-backend-render/main.py:82-86 | the pattern matches at a position through one prefix when the prefix is there and at least six id characters follow; `MatchAtFails` and `MatchThroughId` state what a match then carries |
| UrlCleaner.MatchThrough | yt-backend-render/main.py:82-86 | the match through a prefix starts at the position, its id starts after the prefix and takes the whole id run; `MatchThroughId` proves the id has at least six id characters and cannot be extended |
| UrlCleaner.FirstAlt | yt-backend-render/main.py:82-86 | the alternative reported matches at the position, and no earlier alternative does; none is reported only when no alternative matches |
| UrlCleaner.MatchAt | yt-backend-render/main.py:82-86 | the match at a position comes through the first alternative that matches there; `MatchAtFails` and `MatchAtIsThrough` prove it fails exactly when no alternative matches, and otherwise is the match through any alternative that does |
| UrlCleaner.MatchAtFails | yt-backend-render/main.py:82-86 | the pattern fails at a position exactly when no alternative (prefix plus six or more id characters) matches there |
| UrlCleaner.Search | yt-backend-render/main.py:82-86 | `re.search` reports the match at its start, no position before that start matches, and a failed search means no position from the start to the end matches |
| UrlCleaner.ShortsExclusive | yt-backend-render/main.py:82 | no two expansions of `https?://(?:www\.)?youtube\.com/shorts/` occur at the same position |
| UrlCleaner.WatchExclusive | yt-backend-render/main.py:86 | no two expansions of the watch / youtu.be prefix occur at the same position |
| UrlCleaner.MatchAtIsThrough | yt-backend-render/main.py:82-86 | whichever alternative matches at a position is the match reported there, with the whole id run |
| UrlCleaner.SearchFindsLeftmost | yt-backend-render/main.py:82-86 | a match at `j` with no match before `j` is exactly what the search returns |
| UrlCleaner.SearchFindsNothing | yt-backend-render/main.py:82-87 | if the pattern matches nowhere, the search returns nothing |
| UrlCleaner.SearchFoundNothing | yt-backend-render/main.py:82-87 | if the search returns nothing, the pattern matches nowhere |
| UrlCleaner.SearchFoundThrough | yt-backend-render/main.py:82-86 | a reported match is made through one alternative at its start and carries that alternative's full id run |
| UrlCleaner.SearchFoundId | yt-backend-render/main.py:82-86 | the id of a match the search reports is six or more id characters of the text |
| UrlCleaner.MatchThroughId | yt-backend-render/main.py:82-86 | a match carries at least six id characters after its prefix, ends inside the text, and its id cannot be extended |
| UrlCleaner.Clean | yt-backend-render/main.py:78-87 | `clean_youtube_url`: the stripped text, rewritten or cut down by the two searches; `CleanRewritesShorts`, `CleanKeepsWatchMatch` and `CleanPassesThrough` prove its three outcomes against the leftmost-match predicates, and `CleanIdempotent` proves cleaning twice is cleaning once |
| UrlCleaner.CleanStripped | yt-backend-render/main.py:82-87 | the part after `strip()`: the same three outcomes, proved by the same lemmas on stripped text |
| UrlCleaner.CleanRewritesShorts | yt-backend-render/main.py:82-84 | the leftmost shorts link wins over any watch link and becomes `https://www.youtube.com/watch?v=` plus its maximal id run |
| UrlCleaner.ShortsRewritten | yt-backend-render/main.py:82-84 | when a shorts link is found, the result is `https://www.youtube.com/watch?v=` followed by the id of the match |
| UrlCleaner.CleanStrippedShorts | yt-backend-render/main.py:82-84 | when a shorts link is found, the result is the canonical watch prefix followed by an id of at least six id characters |
| UrlCleaner.CleanKeepsWatchMatch | yt-backend-render/main.py:86-87 | with no shorts link, the result is exactly the leftmost watch / youtu.be match, a slice of the stripped text ending where its id run ends |
| UrlCleaner.CleanPassesThrough | yt-backend-render/main.py:87 | text with neither link comes back as the stripped text |
| UrlCleaner.IdRunSlice | yt-backend-render/main.py:82-86 | the id run inside a slice is the run in the whole string, cut off at the slice's end |
| UrlCleaner.PrefixMatchesInSlice | yt-backend-render/main.py:82-86 | a match inside a slice is a match in the whole string at the shifted position |
| UrlCleaner.NoMatchInSlice | yt-backend-render/main.py:82-86 | a slice of text in which a pattern matches nowhere has no match either |
| UrlCleaner.NoSlashNoShorts | yt-backend-render/main.py:82 | text with no `/` from position 25 on contains no shorts prefix |
| UrlCleaner.CanonicalHasNoShorts | yt-backend-render/main.py:84 | the canonical watch URL of an id contains no shorts link |
| UrlCleaner.CleanFixedPoint | yt-backend-render/main.py:78-87 | text that starts with `h`, ends with an id character and is kept by the search steps is kept by the whole function |
| UrlCleaner.CanonicalMatchesItself | yt-backend-render/main.py:84-87 | the canonical watch URL of an id is matched whole by the watch pattern |
| UrlCleaner.CleanKeepsCanonical | yt-backend-render/main.py:78-87 | the canonical watch URL of an id cleans to itself |
| UrlCleaner.WatchSliceMatchesItself | yt-backend-render/main.py:86-87 | a leftmost watch match, cut out of text with no shorts link, is matched whole again |
| UrlCleaner.CleanKeepsWatchSlice | yt-backend-render/main.py:78-87 | such a watch match cleans to itself |
| UrlCleaner.CleanIdempotentShorts | yt-backend-render/main.py:78-87 | the result of rewriting a shorts link cleans to itself |
| UrlCleaner.CleanIdempotentWatch | yt-backend-render/main.py:78-87 | the result of cutting out a watch link cleans to itself |
| UrlCleaner.CleanIdempotent | yt-backend-render/main.py:78-87 | cleaning is idempotent for every input |
| Wrappers.Coalesce | yt-backend-render/main.py:122 | SQL `COALESCE`: the first value when it is not NULL, otherwise the second; NULL only when both are |
| ChannelCache.Upserted | yt-backend-render/main.py:113-129 | a blank id changes nothing; otherwise the id has a row afterwards, last used `now`; its first-saved time is kept, or is `now` if new; title and thumbnail are replaced only by non-null values; every other row is untouched |
| ChannelCache.UpsertKeepsTimestampOrder | yt-backend-render/main.py:116-129 | with a clock that never goes back, every row stays saved no later than last used, and none is used after `now` |
| ChannelCache.UpsertTwice | yt-backend-render/main.py:119-124 | repeating an upsert with the same values only moves the row's last-used time |
| ChannelCache.ChannelTable.constructor | yt-backend-render/main.py:56-71 | a new table is empty |
| ChannelCache.ChannelTable.Upsert | yt-backend-render/main.py:113-131 | the table afterwards is `Upserted` of the table before |
| ChannelCache.ChannelTable.List | yt-backend-render/main.py:207-216 | the answer lists every row exactly once, under its own id and values, most recently used first |
| ChannelCache.Select | yt-backend-render/main.py:211-214 | one entry per key, in the keys' order, each the row of that key under the query's column names |
| ChannelCache.ListedInOrder | yt-backend-render/main.py:211-214 | selecting the rows in a recency order of `last_used_at` lists every row exactly once, under its own id and values, most recently used first |
| ChannelCache.SelectCoversRows | yt-backend-render/main.py:211-214 | the selection has as many entries as the table has rows, and every row is among them |
| ChannelCache.SelectKeepsOrder | yt-backend-render/main.py:211-214 | each selected entry is its own row, no row comes twice, and the entries are most recently used first |
| ChannelCache.KeysByRecency | yt-backend-render/main.py:212 | every key exactly once, in non-increasing order of value |
| ChannelCache.MostRecentExists | yt-backend-render/main.py:212 | a non-empty set of rows has a most recently used one |
| ChannelCache.TakeMostRecent | yt-backend-render/main.py:212 | placing a most recent remaining key next keeps the keys placed so far ordered and ahead of the rest |
| ChannelCache.LastUsed | yt-backend-render/main.py:212 | the `last_used_at` column has exactly the table's keys and each row's value |
| ChannelCache.UpsertUsedNoLater | yt-backend-render/main.py:116-129 | with a clock that never goes back, an upsert at `now` leaves no row used later than `now` |
| ChannelCache.ListedAfterLatest | yt-backend-render/main.py:207-216 | in a listing, a row used at the latest time is present, and only rows used at that same time come before it |
| ChannelCache.JustUsedListedFirst | yt-backend-render/main.py:113-129 | after an upsert, the channel is listed, and only channels used at the same instant come before it |
| DownloadName.TitleOrDefault | yt-backend-render/main.py:163 | a present, non-empty title is used; an absent or empty one becomes "video" |
| DownloadName.ReplaceNewlines | yt-backend-render/main.py:163 | the same length, with every newline a space and every other character kept |
| DownloadName.Take | yt-backend-render/main.py:163 | `[:100]` is the prefix of length min(100, length) |
| DownloadName.TitleForName | yt-backend-render/main.py:163-166 | the title used for the name is at most 100 characters and holds no newline, whatever the lookup gave; `NoTitleGivesVideo`, `BlankTitleGivesBareExtension` and `SafeTitleKept` pin down its value |
| DownloadName.Sanitize | yt-backend-render/main.py:199 | the same length, with every character outside `[\w\- .]` replaced by `_` and the rest kept |
| DownloadName.FileName | yt-backend-render/main.py:199 | the sanitized title followed by ".mp4"; `FileNameShape` proves every name has that shape, with a body of at most 100 safe characters |
| DownloadName.FileNameShape | yt-backend-render/main.py:163-199 | every name ends in ".mp4"; the part before it is at most 100 characters of word characters, `-`, space and `.`, with no newline |
| DownloadName.NoTitleGivesVideo | yt-backend-render/main.py:163-166 | with no title, an empty title, or a failed lookup, the name is "video.mp4" |
| DownloadName.VideoTitleKept | yt-backend-render/main.py:163 | stripping "video", replacing its newlines and cutting it to 100 characters leaves it unchanged |
| DownloadName.VideoIsSafe | yt-backend-render/main.py:199 | "video" is unchanged by the `re.sub` |
| DownloadName.BlankTitleGivesBareExtension | yt-backend-render/main.py:163 | a title of whitespace only gives the name ".mp4" |
| DownloadName.SafeTitleKept | yt-backend-render/main.py:163-199 | a safe title of at most 100 characters, without a space at either end, is used as is |
| DownloadName.SanitizeIdempotent | yt-backend-render/main.py:199 | sanitizing twice is sanitizing once |
| DownloadName.SanitizeFixedPoints | yt-backend-render/main.py:199 | a string is unchanged by sanitizing if and only if all its characters are safe |
| ChunkedStream.Chunks | yt-backend-render/main.py:189-191 | the chunks the loop yields for a file, as a specification; `ChunksConcat`, `ChunkSizes` and `ChunkIsBlock` prove they are the file's bytes in 1 MiB blocks, and `ReadChunks` is proved to hand them out |
| ChunkedStream.ChunksConcat | yt-backend-render/main.py:189-191 | the chunks put together are exactly the file's bytes |
| ChunkedStream.ChunkSizes | yt-backend-render/main.py:189-191 | every chunk is non-empty and at most 1048576 bytes, all but the last are exactly 1048576, and there are ⌈size / 1048576⌉ of them |
| ChunkedStream.ChunkIsBlock | yt-backend-render/main.py:189-191 | chunk `i` is bytes `i·1048576` up to `(i+1)·1048576`, cut at the end of the file |
| ChunkedStream.Reader.constructor | yt-backend-render/main.py:189 | a newly opened file is read from its first byte |
| ChunkedStream.Reader.Read | yt-backend-render/main.py:190 | `f.read(n)` returns the next `n` bytes, fewer only at the end, and moves the position past them |
| ChunkedStream.NextChunk | yt-backend-render/main.py:190-191 | reading from a position gives the next chunk of those still to come |
| ChunkedStream.Yield | yt-backend-render/main.py:190-191 | yielding a read chunk moves the stream on past it, and the chunks handed out stay a prefix of all chunks |
| ChunkedStream.Exhausted | yt-backend-render/main.py:190 | once the position reaches the end, every chunk has been handed out |
| ChunkedStream.ReadChunks | yt-backend-render/main.py:189-191 | the loop finishes exactly when the client asks for more chunks than there are; it hands out all chunks when it finishes, and otherwise the first ones the client asked for |
| ChunkedStream.Downloads.constructor | yt-backend-render/main.py:178-186 | the downloads directory holds exactly the files yt-dlp has written into it |
| ChunkedStream.Downloads.StreamAndDelete | yt-backend-render/main.py:188-197 | a client that reads to the end gets every chunk and the file is removed; one that stops early gets the first chunks and the file stays; a missing file streams nothing and changes nothing |
| UploadList.Summarize | yt-backend-render/main.py:258-270 | one item's summary: `videoId` from `contentDetails`, title, publish time and channel title from `snippet`, a missing object read as `{}`; the thumbnail as `PickThumbnail` states |
| UploadList.PickThumbnail | yt-backend-render/main.py:261 | the medium entry's url when that entry is non-empty, even if it has no url; otherwise the default entry's url when that is non-empty; otherwise none |
| UploadList.ThumbnailComesFromEntry | yt-backend-render/main.py:261 | a thumbnail, when there is one, is the url of the medium or of the default entry |
| UploadList.UrlLessMediumHidesDefault | yt-backend-render/main.py:261 | a non-empty medium entry without a url gives no thumbnail, whatever the default entry holds |
| UploadList.MapUploads | yt-backend-render/main.py:256-270 | one summary per item of `items` (none when the key is missing), in order, each the item's summary |

## Left out

- yt-dlp (`extract_info` and the download at main.py:171-180) is not part of this model. The title lookup's outcome is a parameter (`DownloadName.Lookup`), and the downloaded file is an entry of `Downloads.files`.
- The `.mp4` path fix-up (main.py:181-186) depends on yt-dlp's file naming and the file system. The path streamed is a parameter.
- The YouTube Data API requests, their status forwarding and the "Channel not found" error (main.py:221-254) are network I/O. The playlist page is a parameter of `UploadList.MapUploads`.
- The response bodies of `channel_videos` and `/channels` are left out. Only the `videos` list and the ordered rows are modelled, and `nextPageToken` is carried in `Page` but not returned.
- SQLite is replaced by a map: connection handling, commits and the SQL text (main.py:50-74, 117-131) are left out.
- FastAPI routing, CORS and the mapping of exceptions to HTTP responses (main.py:39-46, 136-151, 203-204) are left out, as is `video_info`'s decision to save a channel (main.py:141-151).
- Timestamps: `datetime.utcnow().isoformat()` strings are modelled as integers. Their string order is the order of the instants they name, which is all the table compares.
- Other I/O: `uuid4`, `os.makedirs` and the download directory set-up are left out.
- Concurrency: two requests upserting the same id at once can interleave between the SELECT and the write. The model runs each upsert alone.
- Unicode: `\w` is modelled as ASCII letters, digits and `_` (`Text.IsWordChar`). Python's `re` also accepts other Unicode letters and digits in `str` patterns, and those are kept by the file-name `re.sub` and by the id run. The model replaces or stops at them.
- Malformed JSON is left out: an upstream field present with the wrong type (for example `snippet` set to `null`) makes the source raise. Fields are modelled as absent or well-typed, and a `thumbnails` entry holding `"url": null` counts as one of its other keys.
- Read errors while streaming and the swallowed `os.remove` failure (main.py:192-197) are left out. The removal is modelled as always succeeding once reached.
- Ties in `ORDER BY last_used_at DESC`: SQLite returns equal timestamps in an unspecified order. `ChannelCache.KeysByRecency` picks any of them, and its contract allows any order among ties.
