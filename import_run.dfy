/**
 * `Patterns_Import::import` as the step-by-step program it is: the two
 * closures, the per-record branch, the file loop with its counters and `seen`
 * list, and the deletion pass, each mutating the `Store` through its host
 * calls and each proved to compute the matching function of module ImportSpec.
 */
module Importer {
  import opened Wrappers
  import opened PhpStrings
  import opened PatternStore
  import opened ImportSpec
  import opened ImportLaws

  /** `$ensure_terms` (lines 43-80). */
  method EnsureTerms(store: Store, slug: string, cats: seq<string>, dryRun: bool, faults: Faults)
    modifies store
    ensures store.Snapshot() == TermsReconciled(old(store.Snapshot()), slug, cats, dryRun, faults)
  {
    if cats == [] {
      return;
    }
    ghost var st0 := store.Snapshot();
    var termIds: seq<nat> := [];
    for k := 0 to |cats|
      invariant Gathered(store.Snapshot(), termIds) == Gather(st0, cats[..k], dryRun, faults)
    {
      assert cats[..k + 1][..k] == cats[..k];
      var name := Trim(cats[k]);
      if name == "" {
        continue;
      }
      if name in store.taxonomy {
        termIds := termIds + [store.taxonomy[name]];
      } else {
        if dryRun {
          continue;
        }
        var created := store.InsertTerm(name, faults);
        if created.None? {
          continue;
        }
        termIds := termIds + [created.value];
      }
    }
    assert cats[..|cats|] == cats;
    if termIds != [] {
      if dryRun {
        return;
      }
      var ok := store.SetObjectTerms(slug, termIds, faults);
    }
  }

  /** `$apply_sync_status` (lines 82-99). */
  method ApplySyncStatus(store: Store, slug: string, status: Option<string>, dryRun: bool)
    modifies store
    ensures store.Snapshot() == StatusApplied(old(store.Snapshot()), slug, status, dryRun)
  {
    var normalized := if status == Some(Unsynced) then Unsynced else Synced;
    if normalized == Unsynced {
      if dryRun {
        return;
      }
      store.UpdatePostMeta(slug, Unsynced);
    } else {
      if dryRun {
        return;
      }
      store.DeletePostMeta(slug);
    }
  }

  /** Lines 137-185: one accepted record against the store. */
  method ImportRecord(store: Store, inc: Incoming, dryRun: bool, faults: Faults) returns (d: Decision)
    modifies store
    ensures d == Decide(old(store.Snapshot()), inc, dryRun, faults)
    ensures store.Snapshot() == Applied(old(store.Snapshot()), inc, dryRun, faults)
  {
    if inc.slug in store.posts {
      var existing := store.posts[inc.slug];
      var needs := existing.content != inc.content || existing.title != inc.title;
      if needs {
        if dryRun {
          d := WouldUpdate;
        } else {
          var ok := store.UpdatePost(inc.slug, inc.title, inc.content, faults);
          if !ok {
            return UpdateFailed;
          }
          d := Decision.Updated;
          EnsureTerms(store, inc.slug, inc.categories, dryRun, faults);
          ApplySyncStatus(store, inc.slug, inc.syncStatus, dryRun);
        }
      } else {
        d := Unchanged;
        if !dryRun {
          EnsureTerms(store, inc.slug, inc.categories, dryRun, faults);
          ApplySyncStatus(store, inc.slug, inc.syncStatus, dryRun);
        }
      }
    } else {
      if dryRun {
        d := WouldCreate;
      } else {
        var id := store.InsertPost(inc.slug, inc.title, inc.content, faults);
        if id.None? {
          return CreateFailed;
        }
        d := Created;
        EnsureTerms(store, inc.slug, inc.categories, dryRun, faults);
        ApplySyncStatus(store, inc.slug, inc.syncStatus, dryRun);
      }
    }
  }

  /**
   * Lines 188-204: every post whose slug is not in `seen` is deleted
   * permanently, or only reported in dry-run.
   */
  method DeleteMissing(store: Store, seen: seq<string>, dryRun: bool) returns (deleted: set<string>)
    modifies store
    ensures deleted == set s | s in old(store.posts) && s !in seen
    ensures store.Snapshot() == if dryRun then old(store.Snapshot()) else Purged(old(store.Snapshot()), seen)
  {
    ghost var st0 := store.Snapshot();
    var pending := store.posts.Keys;
    deleted := {};
    while pending != {}
      invariant pending <= st0.posts.Keys
      invariant deleted == set s | s in st0.posts && s !in pending && s !in seen
      invariant store.Snapshot() ==
        if dryRun then st0
        else st0.(posts := map s | s in st0.posts && (s in pending || s in seen) :: st0.posts[s])
      decreases pending
    {
      var s :| s in pending;
      if s !in seen {
        if !dryRun {
          store.DeletePost(s);
        }
        deleted := deleted + {s};
      }
      pending := pending - {s};
    }
  }

  /** One more file of the loop: `Ingested` and `Seen` of the longer prefix, unfolded once. */
  lemma IngestedStep(st: State, files: seq<Option<RawRecord>>, i: nat, dryRun: bool, sanitize: string -> string, faults: Faults)
    requires i < |files|
    ensures var p := Ingested(st, files[..i], dryRun, sanitize, faults);
      Ingested(st, files[..i + 1], dryRun, sanitize, faults) ==
        match Validate(files[i], sanitize)
        case None => p
        case Some(inc) => Progress(Applied(p.state, inc, dryRun, faults), Counted(p.tally, Decide(p.state, inc, dryRun, faults)))
    ensures Seen(files[..i + 1], sanitize) ==
      Seen(files[..i], sanitize) + match Validate(files[i], sanitize) case None => [] case Some(inc) => [inc.slug]
  {
    assert files[..i + 1][..i] == files[..i];
  }

  /** `Patterns_Import::import` from the list of decoded JSON files (lines 101-206). */
  method Import(store: Store, files: seq<Option<RawRecord>>, dryRun: bool, sanitize: string -> string, faults: Faults)
    returns (summary: Summary)
    modifies store
    ensures store.Snapshot() == Imported(old(store.Snapshot()), files, dryRun, sanitize, faults).state
    ensures summary == Imported(old(store.Snapshot()), files, dryRun, sanitize, faults).summary
    ensures Valid(old(store.Snapshot())) ==> Valid(store.Snapshot())
  {
    ghost var st0 := store.Snapshot();
    if Valid(st0) {
      ImportKeepsValid(st0, files, dryRun, sanitize, faults);
    }
    if files == [] {
      return NothingToImport;
    }
    var seen: seq<string> := [];
    var created, updated, unaltered := 0, 0, 0;
    for i := 0 to |files|
      invariant Ingested(st0, files[..i], dryRun, sanitize, faults) ==
        Progress(store.Snapshot(), Tally(created, updated, unaltered))
      invariant seen == Seen(files[..i], sanitize)
    {
      IngestedStep(st0, files, i, dryRun, sanitize, faults);
      ghost var before := Progress(store.Snapshot(), Tally(created, updated, unaltered));
      var incoming := Validate(files[i], sanitize);
      if incoming.None? {
        continue;
      }
      seen := seen + [incoming.value.slug];
      var d := ImportRecord(store, incoming.value, dryRun, faults);
      if d == Created {
        created := created + 1;
      } else if d == Decision.Updated {
        updated := updated + 1;
      } else if d == Unchanged {
        unaltered := unaltered + 1;
      }
      assert Tally(created, updated, unaltered) == Counted(before.tally, d);
    }
    assert files[..|files|] == files;
    var deleted := DeleteMissing(store, seen, dryRun);
    summary := Done(created, updated, unaltered, deleted);
  }
}
