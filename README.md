# WhatsApp backup exporter: the resolution pipeline, modelled in Dafny

The exporter rebuilds a readable chat archive from an iPhone backup. The
backup keeps every file under its content hash (`<src>/<hash[:2]>/<hash>`).
A manifest table maps logical paths to those hashes. The chat store refers
to media only by a numeric id and a local path string. This project models
how the exporter joins the two:

- the **path index**: manifest rows become a `path -> hash` map, last row wins;
- the **media catalog**: each media row's path is normalised into the
  manifest's `Message/...` namespace and resolved to
  `id -> Media{Hash, Path, Ext, Title}`, where an empty hash means unresolved;
- **session enumeration**: sessions in query order, minus `@status` sessions,
  stopping at the first row that does not scan;
- **message resolution**: NULL columns become `""`, media is looked up in the
  catalog, the backed-up file is copied to `media/<sessionID>/<mediaID><ext>`
  only when that file is absent, and timestamps move from the 2001 epoch by
  978307200 seconds;
- the **renderer's decisions**: at most the newest 10000 messages per page,
  the media element chosen from the extension, incoming vs outgoing by sender
  presence, newlines turned into `<br>`, and the session page file name that
  the index links to.

Database access is replaced by the rows its queries return, as sequences of
records with `Option` fields for nullable columns. The destination
filesystem is a `Disk` object: the set of existing paths plus a log of the
copies made. `time.Parse`, `time.Unix(...).Format` and
`template.HTMLEscapeString` are function parameters.

Modules, one per component: `Wrappers` (Option, Result), `Decimal`
(`strconv.Itoa` and `%d`), `Paths`, `PathIndex`, `Catalog`, `Sessions`,
`FileStore`, `Messages`, `Exporter` (the `App` object and the driver loop)
and `Dump`.

Behaviour of the code worth noting:

- The catalog does not try both normalisation rules. It picks one by the
  leading slash (main.go:137-141).
- A message row whose scan reports an error is logged and still appended,
  with whatever the scan filled in (main.go:208-210). It is not skipped.
- A session row that fails to scan aborts enumeration: the result is `nil`
  plus the error (main.go:173-176). The failure is not contained to that row.
- No per-session message cap is applied. `main` passes `limitMsg` to
  `DumpSession` (main.go:274), but `DumpSession` takes only two parameters
  (dump.go:45).

## Model

| member | source | states |
|---|---|---|
| `PathIndex.IndexOf` | main.go:112-118 | the index the manifest loop builds, stored row by row; its contract is given by `IndexKeys`, `IndexLastWriteWins` and `IndexValuesFromRows` |
| `PathIndex.BuildPathIndex` | main.go:109-118 | the map the manifest loop builds is the rows stored in table order (`IndexOf`) |
| `PathIndex.IndexKeys` | main.go:112-118 | a path is in the index exactly when some manifest row carries it |
| `PathIndex.IndexLastWriteWins` | main.go:112-118 | the hash stored for a path is the file ID of the last row with that path |
| `PathIndex.LookupMissing` | main.go:138-140 | a path no manifest row carries reads as the empty hash (Go map zero value) |
| `PathIndex.IndexValuesFromRows` | main.go:116 | every stored hash is the file ID of some manifest row |
| `Paths.MediaKey` | main.go:137-141 | the lookup key is the media path, minus one leading `/`, under `Message/` |
| `Paths.MediaKeyIgnoresLeadingSlash` | main.go:137-141 | `/Media/x` and `Media/x` give the same key `Message/Media/x` |
| `Paths.ExtFrom` | main.go:136 | the `filepath.Ext` scan: the result starts at the last dot of the final element, or is "" if a separator or the start comes first |
| `Paths.Ext` | main.go:136 | the extension is a suffix that starts with a dot and has no further dot or `/`, or "" when the final path element has no dot |
| `Paths.ShardedSource` | main.go:220 | the backup file of a hash, `<src>/<hash[:2]>/<hash>`; `ShardedSourceInjective` and `CopyMatchesMediaPath` state its contract |
| `Paths.MediaRel` | main.go:226 | a message's relative media path `media/<sid>/<id><ext>`; `MediaDst` and `MediaDstInjective` state its contract |
| `Paths.ShardedSourceInjective` | main.go:220 | distinct hashes map to distinct `<src>/<hash[:2]>/<hash>` files |
| `Paths.MediaDst` | main.go:221 | the copy location is the destination directory joined with the message's relative media path |
| `Paths.MediaDstInjective` | main.go:221 | two media of one session share a copy location only if the id and the extension are the same |
| `Decimal.NatToString` | main.go:196 | decimal digits only, with no leading zero |
| `Decimal.Itoa` | main.go:196 | a leading `-` exactly for negatives, digits after it |
| `Decimal.ItoaRoundTrip` | main.go:196 | parsing the printed integer gives it back |
| `Decimal.ItoaInjective` | main.go:221 | distinct integers print differently |
| `Catalog.Describe` | main.go:131-141 | the entry one media row with a path produces; `CatalogEntry` states its fields |
| `Catalog.CatalogOf` | main.go:125-143 | the catalog after the media rows are stored in order; `CatalogKeys`, `CatalogSkipsNullPaths`, `CatalogLastRow` and `CatalogEntry` state its contract |
| `Catalog.CatalogKeys` | main.go:125-143 | the catalog ids are the old ones plus those of media rows with a non-NULL path |
| `Catalog.CatalogSkipsNullPaths` | main.go:128-130 | a row with a NULL path creates no entry and changes none |
| `Catalog.CatalogLastRow` | main.go:125-143 | the entry for an id is what the last row with that id and a path describes; later NULL-path rows with the same id change nothing |
| `Catalog.CatalogEntry` | main.go:131-142 | the entry comes from the last row with that id and a path: `Path` is the row path, `Ext` its extension, `Title` the title or "", `Hash` the index value under the normalised key or "" |
| `Exporter.App.constructor` | main.go:53-56 | a new app has the given directories and an empty catalog |
| `Exporter.App.LoadMediaMap` | main.go:101-163 | afterwards the catalog is the media rows stored over the old catalog. The profile-picture loop (main.go:146-162) leaves it unchanged |
| `Exporter.LoadedCatalogShardable` | main.go:220 | if every manifest file ID is empty or has two or more characters, `Hash[:2]` is defined for every catalog entry |
| `Sessions.Scan` | main.go:173-176 | a session row scans exactly when no column is NULL, giving its three values; otherwise the error names a NULL column and no earlier column is NULL |
| `Sessions.GetSessions` | main.go:165-183 | the call fails exactly when some row does not scan, with the first such row's error; otherwise it returns the scanned sessions minus the status ones (`Kept`) |
| `Sessions.Kept` | main.go:170-182 | the scanned sessions in order minus the status ones; `KeptHasNoStatus` and `KeptIsOrderedSelection` state its contract |
| `Sessions.KeptHasNoStatus` | main.go:177-179 | no returned session's CID ends in `@status` |
| `Sessions.KeptIsOrderedSelection` | main.go:170-182 | the result is picked from the input at strictly increasing positions, and every non-status row is among them |
| `Messages.ResolveMessage` | main.go:202-243 | the message one row resolves to; `ResolveMessageFields`, `ResolvedMessageMedia` and `UnresolvedMessageMedia` state its contract |
| `Messages.DateText` | main.go:235-242 | the rendered date, or ""; `ResolveMessageFields` states its contract |
| `Messages.ResolveMessageFields` | main.go:202-243 | the sender is kept as is, a NULL push name becomes "", `IsGroup` holds exactly when the group column is non-NULL. `Date` is `format(parsed + 978307200)`, or "" when the date is NULL or does not parse |
| `Messages.ResolvedMessageMedia` | main.go:226-228 | with a non-empty catalog hash, `Media` is `media/<sid>/<id><ext>`, `MediaExt` the extension, and `Text` the title, even an empty one |
| `Messages.UnresolvedMessageMedia` | main.go:211-233 | with no media id, an id missing from the catalog, or an empty hash, `Media` and `MediaExt` are "" and `Text` is the chat text or "" |
| `Messages.ResolveAll` | main.go:200-247 | one message per row |
| `Messages.ResolveAllAt` | main.go:245 | the i-th message is the resolution of the i-th row (query order) |
| `Messages.CopyMatchesMediaPath` | main.go:220-226 | a resolved message's copy comes from the hash-sharded backup file and lands at the destination joined with the message's `Media` path |
| `Messages.CopyPlanComplete` | main.go:217-225 | every resolved message asks for its copy |
| `Messages.CopyPlanSound` | main.go:217-225 | the plan holds exactly one copy per resolved message and nothing else, in row order: the k-th copy is the one row `idx[k]` asks for, the positions `idx` increase strictly, and every resolved row is among them |
| `FileStore.NewCopies` | main.go:222-225 | the copies copy-if-absent makes over a plan; `NewCopiesExact`, `NewCopiesNoneWhenPresent` and `NewCopiesAppend` state its contract |
| `FileStore.NewCopiesExact` | main.go:222-225 | copy-if-absent copies exactly the destinations missing at first, each once, and never one that existed |
| `FileStore.NewCopiesNoneWhenPresent` | main.go:222 | if every destination exists, nothing is copied |
| `FileStore.NewCopiesAppend` | main.go:222-225 | copy-if-absent over a plan, then over one more op, equals copy-if-absent over both |
| `FileStore.Disk.Copy` | main.go:223 | the destination exists afterwards and the copy is logged |
| `Exporter.Materialize` | main.go:222-225 | copies only when the destination does not exist; the destination exists afterwards |
| `Exporter.App.ResolveRow` | main.go:202-245 | one loop turn: the message is `ResolveMessage` of the row; the disk gains that row's copy only if its destination was absent |
| `Exporter.App.SessionMessages` | main.go:185-248 | the messages are the rows resolved in order. The disk gains the plan's destinations, and the log gains exactly the copies whose destination was absent |
| `Exporter.ResolveTwice` | main.go:222 | resolving a session twice gives the same messages, and the second pass copies nothing |
| `Exporter.EndToEnd` | main.go:109-143 | a message's media resolves through the last media row with its id and the last manifest row with the normalised path. Extension, caption and `Media` path come from the media row; the hash comes from the manifest row |
| `Exporter.EndToEndExample` | main.go:217-228 | manifest `ab12` at `Message/Media/photo.jpg` and media 5 at `Media/photo.jpg`: `.jpg`, `media/7/5.jpg`, copy `src/ab/ab12` to `dst/media/7/5.jpg` |
| `Exporter.ChatsBuilt` | main.go:275-277 | how many sessions the driver loop builds: never more than there are, all of them when the limit is non-positive or not exceeded, and exactly `limit + 1` whenever there are more sessions than a positive limit |
| `Exporter.BuildSessions` | main.go:269-279 | the driver loop as written builds the first `ChatsBuilt(n, limit)` sessions, which is `min(n, limit + 1)` for a positive limit |
| `Exporter.ChatLimitOverrun` | main.go:275-277 | with 3 sessions and limit 1, two sessions are built |
| `Exporter.BuildSessionsLimited` | main.go:275-277 | corrected loop: a positive limit builds at most `limit` sessions, in order; a non-positive one builds all |
| `Dump.Truncate` | dump.go:114-116 | the result has `min(n, 10000)` entries, and they are the last ones of the input in order |
| `Dump.TruncateKeepsNewest` | dump.go:114-116 | 10000 or fewer entries are returned unchanged. The result is a suffix of the input, and truncating twice changes nothing |
| `Dump.ElementFor` | dump.go:78-94 | the media element for an extension; `ElementChoice`, `ElementIsCaseSensitive` and `ElementOnlyForResolvedMedia` state its contract |
| `Dump.ElementChoice` | dump.go:78-94 | `.jpg`/`.png` give an image, `.mp4` video/mp4, `.m4a` audio/mp4 and `.opus` audio/ogg. Every other extension gives no element |
| `Dump.ElementIsCaseSensitive` | dump.go:78-94 | `.JPG` and "" give no element |
| `Dump.ElementOnlyForResolvedMedia` | dump.go:78-94 | a media element is rendered only for a resolved message, so its `Media` link is non-empty |
| `Dump.MessageClass` | dump.go:76 | `incoming` exactly when the sender JID is present, otherwise `outgoing` |
| `Dump.ReplaceNewlines` | dump.go:104 | no newline is left, and newline-free text is unchanged |
| `Dump.Nl2br` | dump.go:103-105 | whatever the escape does, the output has no newline |
| `Dump.ReplaceNewlinesRoundTrip` | dump.go:104 | on text without `<` (escaped text), turning `<br>` back into newlines restores the input |
| `Dump.SessionFileName` | dump.go:110 | the page file `DumpSession` writes for a session; `IndexLinkTargetsSessionFile` states its contract |
| `Dump.IndexLink` | dump.go:30 | the index's link target for a session; `IndexLinkTargetsSessionFile` states its contract |
| `Dump.IndexLinkTargetsSessionFile` | dump.go:30 | the index link for a session is the file name `DumpSession` writes for it (dump.go:110), and no other session's |

## Findings

| source | as written | input that shows it | evidently intended | confidence | as-written member | corrected member |
|---|---|---|---|---|---|---|
| main.go:275-277 | the counter is incremented and then checked against the limit with `counter > *chatLimitPtr` | `-limitChat 1` with 3 sessions: 2 sessions are built (`ChatLimitOverrun`) | the flag "Limit number of chats to export" builds at most `limitChat` sessions | not executed; high | `Exporter.BuildSessions` | `Exporter.BuildSessionsLimited` |

## Left out

- `NewApp` (main.go:58-96): copying and opening the manifest and chat
  databases, and the `fileID[:2]` sharding used for the chat database copy.
  This is I/O; the databases are replaced by their query results.
- SQL queries, `ORDER BY` and row scanning. Rows arrive in query order as
  inputs. Scan errors in `LoadMediaMap` are passed to `check`.
  Scan errors in `SessionMessages` are only logged, and the row's fields are
  taken as scanned.
- `copyFile` and `check` are not part of this model. A copy always
  succeeds and creates its destination. An `os.Stat` error other than
  "does not exist" is not modelled: a path either exists or it does not.
- `os.MkdirAll` of the per-session media directory (main.go:197), and the
  `os.Create`, `os.Mkdir` and `ioutil.WriteFile` calls of the renderer.
  These are filesystem I/O.
- `time.Parse(time.RFC3339, ·)` and `time.Unix(·, 0).Format(time.RFC3339)`.
  These are library calls, and the formatted text depends on the local time
  zone. They are the parameters `parse` and `format`; only the offset
  addition and the parse-failure case are modelled.
- `template.HTMLEscapeString` is the parameter `escape`. The template
  engine's output, the frameset `index.html` and the HTML text around the
  modelled decisions are not modelled.
- `path.Join` is modelled as joining with one `/`, without its `Clean` step.
  Every directory argument is taken to be clean and non-empty.
- `main`'s flag parsing, its log lines, and the per-session calls of
  `SessionMessages` and `DumpSession` in the driver loop. Only which
  sessions the loop builds is modelled.
- The profile-picture loop's local `media` value (main.go:151-161) is
  computed and discarded. Nothing of it is observable.
- The panics that come from dereferencing NULL manifest columns
  (main.go:116) and from `Hash[:2]` on a hash shorter than two characters
  (main.go:220) are not modelled. These become the preconditions
  `Dereferenceable` and `Shardable`.
