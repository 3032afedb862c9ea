# gutenberg-patterns-sync, modelled in Dafny

The plugin syncs WordPress synced patterns (`wp_block` posts) with a directory
of JSON files. It has two WP-CLI commands:

- `wp patterns export` writes every published pattern to
  `<dir>/<sanitized title>.json`. The record holds the title, a slug that
  carries the prefix, the content, the deduplicated category names and the sync
  status.
- `wp patterns import` reads the files back in order:
  - it validates each record and, for the sanitized slug, creates, updates or
    leaves the post unchanged;
  - it reconciles the post's `wp_pattern_category` terms and its
    `wp_pattern_sync_status` meta;
  - finally it permanently deletes every pattern whose slug no file named.

  With `--dry-run` it only reports what it would do.

The model is organised as follows:

- `PatternStore` (store.dfy) holds the content store as a value (`State`).
  - The posts are keyed by slug. Each has an id, title, content, term ids,
    optional sync meta and published flag.
  - The taxonomy maps term name to term id.
  - `Store` is a class whose methods are the WordPress calls the importer
    makes: `wp_insert_post`, `wp_update_post`, `wp_insert_term`,
    `wp_set_object_terms`, `update_post_meta`, `delete_post_meta` and
    `wp_delete_post`.
  - Which calls of `wp_insert_post`, `wp_update_post`, `wp_insert_term` and
    `wp_set_object_terms` fail is a parameter (`Faults`).
- `ImportSpec` (import_spec.dfy) states the import as functions on `State`:
  - record validation;
  - the two closures `$ensure_terms` and `$apply_sync_status`;
  - the per-record decision, the counters and the fold over the files;
  - the deletion pass.
- `Importer` (import_run.dfy) is the command as the imperative program it is:
  - the term loop, the file loop with its `seen` list and counters, and the
    deletion loop;
  - every method mutates the `Store` and is proved to compute the matching
    `ImportSpec` function.
- `ImportLaws` (import_laws.dfy) proves what the import promises: dry-run,
  deletion, "seen before outcome", counters, categories, and the store
  invariants a run keeps.
- `Export` (export.dfy) holds the export:
  - the projection of one post as functions: prefixed slug, first-occurrence
    deduplication, sync-status default, file name;
  - the published-posts query and the write loop as methods writing into a
    map from file name to record.
- `ExportLaws` (export_laws.dfy) covers which file ends up holding which
  record (the last writer in name order wins) and the count of successful
  writes.
- `RoundTrip` (round_trip.dfy) connects the two commands:
  - when an export is clean (every post published, re-importable and
    written, with distinct sanitized titles), re-importing it onto the store
    it came from creates, updates and deletes nothing and keeps every title
    and content; a listing that names each file once counts every post as
    unchanged; outside dry-run the sync meta is normalised (only "unsynced"
    survives);
  - a slug prefix makes the import replace the post instead.
- `PhpStrings` (php_strings.dfy) gives PHP truthiness, `trim` and
  `rtrim($s, '/')`.
- `Ordering` (ordering.dfy) is the name order of the export query.
- `Wrappers` (wrappers.dfy) holds `Option`.

The import appends the slug to `seen` before the lookup (line 135), so a
failed update still keeps that post from being deleted.
`ImportLaws.AcceptedExistingSurvives` states this.

Interpretations and abstractions:

- `sanitize_title` is a function parameter. Nothing is assumed about it, and
  in particular not idempotence.
- PHP truthiness of a string is modelled as: falsy exactly for `""` and `"0"`.
- `get_the_terms` is an oracle from slug to a list of names or a non-array.
- JSON encoding and `file_put_contents` are boolean oracles.
- Post names sort by code point.

The record has exactly the five keys `title`, `slug`, `content`, `categories`
and `syncStatus` (export lines 61-67). These are the fields of
`Export.ExportRecord`, and `RoundTrip.Decoded` reads them back, all present.

Three properties of the code as written are proved:

- With a non-empty prefix, the exported slug is sanitized again on import.
  Unless that lands on the post's own slug, a lone pattern is re-created under
  the new slug and the original is deleted
  (`RoundTrip.PrefixedRecordReplacesPost`).
- Two posts whose titles sanitize alike write the same file, and the one
  greatest in name order wins (`ExportLaws.GreatestNameWins`).
- In dry-run, `unchanged` is still counted while `created` and `updated` stay
  zero.

## Model

| member | source | states |
|---|---|---|
| PhpStrings.Trim | classes/patterns-import.php:49 | the trimmed name is the sub-range left after removing the leading and trailing runs of trim characters: only trim characters lie outside it and none at either end of it; it is empty exactly when the name is all trim characters |
| PhpStrings.TrimTrailingSlashes | classes/patterns-export.php:75 | `rtrim(dir, '/')` is the longest prefix that does not end in '/', and only slashes were removed |
| PhpStrings.Falsy | classes/patterns-import.php:131 | PHP truthiness of a string: `!$x` holds exactly for `""` and `"0"`; `ImportSpec.Validate` and `Export.ExportedSlug` state what follows from it |
| Ordering.NameOrder | classes/patterns-export.php:36-42 | the `orderby name ASC` result lists every published name exactly once, strictly ascending |
| Ordering.AscendingUnique | classes/patterns-export.php:36-42 | the ordered query result is unique: two strictly ascending lists with the same names are equal |
| Ordering.LeastExists | classes/patterns-export.php:39-40 | every non-empty set of names has a least one, so the ascending order exists |
| PatternStore.Store.InsertPost | classes/patterns-import.php:175 | `wp_insert_post`: on failure the store is unchanged and no id is returned; otherwise a published post with a fresh id is added under the slug |
| PatternStore.Store.UpdatePost | classes/patterns-import.php:152-153 | `wp_update_post`: succeeds unless it faults; then title and content are replaced and the post is published |
| PatternStore.Store.InsertTerm | classes/patterns-import.php:59 | `wp_insert_term`: on failure nothing changes; otherwise the name gets the next fresh term id |
| PatternStore.Store.SetObjectTerms | classes/patterns-import.php:75 | `wp_set_object_terms`: on success the post's terms become exactly the set of the given ids |
| PatternStore.Store.UpdatePostMeta | classes/patterns-import.php:90 | the post's sync meta becomes the given value, nothing else changes |
| PatternStore.Store.DeletePostMeta | classes/patterns-import.php:97 | the post's sync meta is removed, nothing else changes |
| PatternStore.Store.DeletePost | classes/patterns-import.php:200 | `wp_delete_post(id, true)`: the post is gone from the store permanently |
| ImportSpec.Validate | classes/patterns-import.php:119-134 | a decoded file is accepted iff its sanitized slug and its content are present and truthy; the title written is the record's non-empty title, else the slug, so never empty |
| ImportSpec.AcceptedSlug | classes/patterns-import.php:125-135 | the slug a decoded file adds to `seen`: the sanitized slug of an accepted file, nothing for a skipped one; `ImportLaws.SeenIsAccepted` and `ImportLaws.SkippedFileIsIgnored` state its properties |
| ImportSpec.Gather | classes/patterns-import.php:47-68 | the term loop only touches the taxonomy, keeps every existing term, creates terms only outside dry-run and only when insertion succeeds, and collects only ids of existing terms |
| ImportSpec.GatherNamesOnly | classes/patterns-import.php:48-68 | every term the loop creates is named by the trimmed form of some name of the list |
| ImportSpec.TermsReconciled | classes/patterns-import.php:43-80 | an empty list or dry-run changes nothing; otherwise only this post's term set may change, and every existing term is kept; when `wp_set_object_terms` fails no post changes |
| ImportSpec.TermsReconciledNamesOnly | classes/patterns-import.php:43-80 | every term created while reconciling categories is named by the trimmed form of one of them |
| ImportSpec.Normalized | classes/patterns-import.php:83 | the status is "unsynced" exactly when the record says "unsynced", and "synced" otherwise |
| ImportSpec.StatusApplied | classes/patterns-import.php:82-99 | outside dry-run, "unsynced" stores the meta "unsynced" and anything else deletes it; dry-run changes nothing |
| ImportSpec.Reconciled | classes/patterns-import.php:160-161 | both closures on one post: only its terms and meta change, and its meta ends up as the normalised status |
| ImportSpec.Decide | classes/patterns-import.php:146-185 | unchanged iff the post exists with equal title and content; the update family iff it exists and differs; the create family iff it is missing; created and updated never in dry-run; outside dry-run a create fails iff `wp_insert_post` fails and an update fails iff `wp_update_post` fails |
| ImportSpec.Applied | classes/patterns-import.php:137-185 | a created or updated post carries the incoming title and content, is published and has the normalised meta; an update keeps the id; unchanged keeps title and content; failures and dry-run outcomes leave the store as it was; other posts are untouched; an unchanged post outside dry-run also gets the normalised meta; for created, updated and (outside dry-run) unchanged, the result is the categories and status step applied to the store after the write |
| ImportSpec.Counted | classes/patterns-import.php:146-185 | each outcome bumps at most one counter, by one: created for Created, updated for Updated, unchanged for Unchanged, and none otherwise |
| ImportSpec.Ingested | classes/patterns-import.php:113-186 | the file loop as a fold: skipped files leave store and counters alone, each accepted record takes one `Applied` step and one `Counted` step; `ImportLaws.IngestedKeys`, `ImportLaws.DryIngestChangesNothing`, `ImportLaws.TallyBounded`, `ImportLaws.MatchingIngest` and `ImportLaws.IngestedKeepsValid` state its properties |
| ImportSpec.Seen | classes/patterns-import.php:135 | `$seen[] = $slug`: the slugs of the accepted files in listing order, whatever each outcome; `ImportLaws.SeenIsAccepted` and `RoundTrip.AllAcceptedSeen` state its properties |
| ImportSpec.Purged | classes/patterns-import.php:188-204 | the deletion pass outside dry-run: exactly the posts whose slug was seen remain, unchanged; `ImportLaws.DeletionCorrect` and `RoundTrip.PurgeAllSeen` state its properties |
| ImportSpec.Imported | classes/patterns-import.php:101-206 | the whole import: nothing to import for an empty listing, otherwise the file loop, then the deletion pass outside dry-run, with the counters and the unseen slugs reported; `ImportLaws.DeletionCorrect`, `ImportLaws.DryRunChangesNothing`, `ImportLaws.EmptyDirectoryDeletesNothing` and `ImportLaws.ImportKeepsValid` state its properties, and `Importer.Import` is proved to compute it |
| ImportLaws.SkippedFileIsIgnored | classes/patterns-import.php:125-134 | a file that fails validation changes neither the store, nor the counters, nor `seen` |
| ImportLaws.SeenIsAccepted | classes/patterns-import.php:125-135 | a slug is in `seen` iff some file was accepted with that slug, whatever its outcome |
| ImportLaws.IngestedKeys | classes/patterns-import.php:113-186 | the file loop never removes a post, and only adds posts with a seen slug |
| ImportLaws.AcceptedExistingSurvives | classes/patterns-import.php:135-157 | an accepted file naming an existing post keeps that post alive through the deletion pass, even when its update fails |
| ImportLaws.DeletionCorrect | classes/patterns-import.php:188-204 | outside dry-run, an old post survives iff its slug was seen, every post left has a seen slug, and the reported deletions are exactly the old unseen posts |
| ImportLaws.EmptyDirectoryDeletesNothing | classes/patterns-import.php:101-106 | no JSON files: the command returns before the deletion pass and the store is unchanged |
| ImportLaws.DryIngestChangesNothing | classes/patterns-import.php:146-185 | in dry-run the file loop leaves the store identical and counts nothing as created or updated |
| ImportLaws.DryRunChangesNothing | classes/patterns-import.php:146-204 | in dry-run the whole command leaves store, taxonomy and meta identical, and created and updated stay 0; the would-be deletions are the unseen posts |
| ImportLaws.TallyBounded | classes/patterns-import.php:146-185 | created + updated + unchanged is at most the number of accepted files, which is at most the number of files |
| ImportLaws.MatchingIngest | classes/patterns-import.php:146-170 | when every accepted file matches its post, titles and contents are kept and every accepted file counts as unchanged |
| ImportLaws.ReimportIsUnchanged | classes/patterns-import.php:146-170 | re-importing matching files creates and updates nothing and counts each accepted file as unchanged |
| ImportLaws.GatherLast | classes/patterns-import.php:48-68 | one more category name grows the collected ids by at most its own term, and only when it is resolvable |
| ImportLaws.GatherCovers | classes/patterns-import.php:48-68 | every non-blank name that exists or can be created ends up with a term whose id is collected |
| ImportLaws.GatherSound | classes/patterns-import.php:48-68 | every collected id is the term of some resolvable name of the list |
| ImportLaws.GatherNothing | classes/patterns-import.php:44-69 | when no name is resolvable nothing is collected, so `wp_set_object_terms` is not called |
| ImportLaws.TermsAssigned | classes/patterns-import.php:43-80 | outside dry-run, when assigning succeeds: the post's terms become exactly the terms of the resolvable names, or stay as they were when there are none |
| ImportLaws.AppliedTermsAssigned | classes/patterns-import.php:137-185 | for a created, updated or unchanged record outside dry-run, when assigning succeeds, the post's terms are exactly the terms of its resolvable names; with none, a new post has no terms and an existing one keeps its own |
| ImportLaws.WithTermKeepsValid | classes/patterns-import.php:59 | creating a term keeps term ids distinct and below the next id |
| ImportLaws.WithTermsKeepsValid | classes/patterns-import.php:75 | assigning existing terms keeps the store invariant |
| ImportLaws.WithMetaKeepsValid | classes/patterns-import.php:90-97 | writing or deleting the meta keeps the store invariant |
| ImportLaws.InsertedKeepsValid | classes/patterns-import.php:175 | inserting a post keeps post ids distinct and below the next id |
| ImportLaws.EditedKeepsValid | classes/patterns-import.php:153 | updating a post keeps the store invariant |
| ImportLaws.GatherKeepsValid | classes/patterns-import.php:48-68 | the term loop keeps the store invariant |
| ImportLaws.ReconciledKeepsValid | classes/patterns-import.php:160-161 | reconciling terms and status keeps the store invariant |
| ImportLaws.AppliedKeepsValid | classes/patterns-import.php:137-185 | one record keeps the store invariant |
| ImportLaws.IngestedKeepsValid | classes/patterns-import.php:113-186 | the file loop keeps the store invariant |
| ImportLaws.ImportKeepsValid | classes/patterns-import.php:101-204 | a whole run keeps ids distinct and below the next id, and every assigned term existing |
| ImportLaws.AppliedKeepsTwoValuedMeta | classes/patterns-import.php:82-99 | one record leaves every post's sync meta absent or "unsynced" if it was so before |
| ImportLaws.IngestedKeepsTwoValuedMeta | classes/patterns-import.php:113-186 | the file loop keeps the sync meta two-valued |
| ImportLaws.ImportKeepsTwoValuedMeta | classes/patterns-import.php:101-204 | a whole run keeps every post's sync meta absent or "unsynced" |
| Importer.EnsureTerms | classes/patterns-import.php:43-80 | the `$ensure_terms` loop leaves the store at `TermsReconciled` of the old store |
| Importer.ApplySyncStatus | classes/patterns-import.php:82-99 | `$apply_sync_status` leaves the store at `StatusApplied` of the old store |
| Importer.ImportRecord | classes/patterns-import.php:137-185 | returns `Decide` of the old store and leaves the store at `Applied` of it |
| Importer.DeleteMissing | classes/patterns-import.php:188-204 | reports exactly the posts whose slug is not in `seen`, and outside dry-run deletes exactly those |
| Importer.Import | classes/patterns-import.php:101-206 | the command's final store and summary are those of `Imported` on the old store, and a store satisfying `PatternStore.Valid` still does afterwards |
| Export.ExportedSlug | classes/patterns-export.php:49 | with a truthy prefix the slug is prefix, '/', sanitized title; otherwise the sanitized title alone |
| Export.FirstIndexIsFirst | classes/patterns-export.php:58 | `FirstIndex` is the first occurrence: no earlier element equals it |
| Export.Unique | classes/patterns-export.php:58 | `array_values(array_unique(...))`: exactly the names of the list, each once, in first-occurrence order |
| Export.Categories | classes/patterns-export.php:52-59 | no categories when the terms are not an array, otherwise the deduplicated names |
| Export.SyncStatusOut | classes/patterns-export.php:66 | the stored meta when truthy, otherwise "synced"; never falsy |
| Export.Project | classes/patterns-export.php:48-67 | the record of one post: its title, the prefixed slug, its content, the deduplicated category names and the defaulted status; `RoundTrip.RecordReimports` states that it re-imports onto its post |
| Export.FileName | classes/patterns-export.php:75 | the file of a post: the directory without trailing slashes, `/`, the sanitized title and `.json`; `Export.FileNameInjective` states its properties |
| Export.Attempt | classes/patterns-export.php:69-79 | one iteration for one post: the file and record written, or nothing when encoding or writing fails; `ExportLaws.WritesTo` and `ExportLaws.WrittenByLast` build on it |
| Export.Written | classes/patterns-export.php:47-83 | the directory after the loop: every successful attempt, in order, overwrites its file; `ExportLaws.WrittenDomain`, `ExportLaws.WrittenUntouched`, `ExportLaws.WrittenByLast` and `ExportLaws.WrittenFromPost` state its properties |
| Export.Successes | classes/patterns-export.php:45-82 | `$count++` once per successful attempt; `ExportLaws.SuccessesBounded` and `ExportLaws.CountBounded` state its properties |
| Export.Published | classes/patterns-export.php:41 | `post_status => publish`: the slugs of the published posts; `Export.QueryPublished` returns them in name order |
| Export.FileNameInjective | classes/patterns-export.php:75 | the file name ignores the prefix, and two posts share a file iff their sanitized titles are equal |
| Export.QueryPublished | classes/patterns-export.php:36-42 | the query returns the published posts, each once, in ascending name order |
| Export.WriteAll | classes/patterns-export.php:47-83 | the loop leaves the directory at `Written` and the count at `Successes` of the order |
| Export.Export | classes/patterns-export.php:22-86 | the command writes the published posts in name order; the store is an input, never changed |
| ExportLaws.WrittenDomain | classes/patterns-export.php:47-83 | a file is in the directory after export iff it was there before or some post wrote it |
| ExportLaws.WrittenUntouched | classes/patterns-export.php:47-83 | a file no post writes keeps its old record |
| ExportLaws.WrittenByLast | classes/patterns-export.php:75-76 | the record of a file is the one of the last post in the order that wrote it |
| ExportLaws.WrittenFromPost | classes/patterns-export.php:69-79 | every new file holds a record some post successfully encoded and wrote there |
| ExportLaws.GreatestNameWins | classes/patterns-export.php:36-76 | among published posts writing the same file, the one greatest in name order owns it |
| ExportLaws.SuccessesBounded | classes/patterns-export.php:69-82 | the count is at most the number of posts, and equals it iff every encode and write succeeds |
| ExportLaws.CountBounded | classes/patterns-export.php:36-85 | the exported count is at most the number of published posts |
| RoundTrip.StatusSurvivesExport | classes/patterns-export.php:66 | after import sets a status, export writes back exactly the normalised status |
| RoundTrip.StatusSurvivesImport | classes/patterns-import.php:82-99 | re-importing the exported status of a post with two-valued meta leaves the store unchanged |
| RoundTrip.RecordReimports | classes/patterns-import.php:125-144 | with no prefix and a stable slug, a post's exported record is accepted and names that post with its title and content |
| RoundTrip.FileReimports | classes/patterns-export.php:61-75 | every file of a clean export re-imports onto the post it came from, with equal title and content and the status that post is exported with |
| RoundTrip.PostListed | classes/patterns-export.php:75 | in a clean export every post's file holds that post's record |
| RoundTrip.AllAcceptedSeen | classes/patterns-import.php:135 | when every file is accepted, `seen` has one slug per file |
| RoundTrip.ListedFilesMatch | classes/patterns-import.php:125-147 | the files of a clean export are all accepted, all match their posts and carry their posts' exported status |
| RoundTrip.ListedSlugsArePosts | classes/patterns-import.php:135 | the slugs seen when importing a clean export are exactly the store's posts |
| RoundTrip.DistinctListingSeen | classes/patterns-import.php:113-135 | a clean export listed without repeated files makes the import see one slug per file and no slug twice |
| RoundTrip.DistinctListingCount | classes/patterns-import.php:113-135 | such a listing has exactly one file per post |
| RoundTrip.MatchingListingIngest | classes/patterns-import.php:146-170 | matching files that name every post leave the keys, titles and contents as they are, all counted unchanged |
| RoundTrip.PurgeAllSeen | classes/patterns-import.php:194-204 | when every post was seen the deletion pass removes and reports nothing |
| RoundTrip.MatchingListingImport | classes/patterns-import.php:108-206 | such an import reports Done(0, 0, files, no deletions) and keeps the posts |
| RoundTrip.ReimportedMeta | classes/patterns-import.php:82-99 | the meta a post ends with after its exported status is re-imported: "unsynced" exactly when it was "unsynced", otherwise deleted |
| RoundTrip.UnchangedStatus | classes/patterns-import.php:163-169 | an unchanged record keeps every post, and changes only its own post's meta, to the normalised status, and only outside dry-run |
| RoundTrip.MatchingStatuses | classes/patterns-import.php:146-170 | matching files that carry their posts' exported statuses leave each post's meta as it was in dry-run, and otherwise at the re-imported meta when the post is seen |
| RoundTrip.MatchingListingMeta | classes/patterns-import.php:108-206 | such an import, with every post named, leaves the metas alone in dry-run and normalises them otherwise |
| RoundTrip.ExportThenImport | classes/patterns-import.php:101-206 | importing a clean export creates, updates and deletes nothing, counts every file unchanged and keeps every title and content, in dry-run or not; outside dry-run each meta becomes "unsynced" if it was and is deleted otherwise, so a store whose metas are only absent or "unsynced" keeps them; when the listing names no file twice, as a glob does, the unchanged count equals the number of posts |
| RoundTrip.PrefixedRecordReplacesPost | classes/patterns-export.php:49 | with a prefix, re-importing a lone post's record deletes the post and, when insertion succeeds, creates one under the prefixed slug |

## Left out

- Reading and listing files (`glob`, `file_get_contents`) and `json_decode`: the import receives the decoded files as a sequence, with `None` for a file that cannot be read or is not a JSON object.
- Non-string JSON values and PHP's `(string)` casts of them: every field is a string or absent, and `categories` is a list of strings or empty.
- `json_encode` and its flags, including `--pretty`, and `file_put_contents`: their success is a boolean oracle, and the JSON text itself is not modelled.
- The body of `sanitize_title` and the `get_the_title` filters: sanitizing is an arbitrary function parameter, and the title is the stored title.
- `get_the_terms`: an oracle from post to term names or a non-array.
- Logging, warnings and success messages, and the `--no-verbose` option: output only.
- Option defaults (`get_theme_file_path`, `wp_get_theme`), the "Directory not found" and `wp_mkdir_p` errors, and `register_taxonomy` / `taxonomy_exists`: host setup that stops the command or has no effect on the model.
- The database collation of the export's `orderby name`: abstracted to code-point order.
- Importer.DeleteMissing: queries every pattern in the store, while WordPress's `WP_Query` default status filter may restrict the query of line 188 to published ones. The importer only ever writes published posts.
- PatternStore.Store.DeletePost, UpdatePostMeta, DeletePostMeta: never fail, because the source ignores their results.
- PatternStore.Store.InsertPost: `wp_unique_post_slug` renaming is not modelled, so the post is stored under the slug it was given. As a result, `get_page_by_path` is a lookup by key.
- PatternStore.Faults: whether a host call fails depends only on its argument.
- Post and term ids: fresh counters. The `(int)` casts of ids are identities.
- Export.Export: takes the posts by value, so it cannot mutate the store. The query's `post_type` filter is implicit, because the store holds only `wp_block` posts.
- The plugin bootstrap (gutenberg-patterns-sync.php) and the delegating wrappers (classes/patterns.php): WP-CLI wiring.
- RoundTrip.ExportThenImport: does not promise that the terms come back. The re-import sets each post's terms from the names `get_the_terms` returned at export time, resolved in the taxonomy, and that oracle is not tied to the post's stored term ids.
