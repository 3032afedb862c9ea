/**
 * Export followed by import: the sync status and the records an export
 * writes come back unchanged when they are imported again.
 */
module RoundTrip {
  import opened Wrappers
  import opened PhpStrings
  import opened Ordering
  import opened PatternStore
  import opened ImportSpec
  import opened ImportLaws
  import opened Export
  import opened ExportLaws

  /** The JSON object an exported record decodes to: every key present, every value a string or a list. */
  function Decoded(r: ExportRecord): RawRecord {
    RawRecord(Some(r.slug), Some(r.title), Some(r.content), r.categories, Some(r.syncStatus))
  }

  /** Import then export: the status a post is exported with is the normalised status it was imported with. */
  lemma StatusSurvivesExport(st: State, slug: string, status: Option<string>)
    requires slug in st.posts
    ensures SyncStatusOut(StatusApplied(st, slug, status, false).posts[slug].syncMeta) == Normalized(status)
  {
  }

  /** Export then import: a post whose meta is absent or "unsynced" gets the same meta back. */
  lemma StatusSurvivesImport(st: State, slug: string)
    requires slug in st.posts
    requires st.posts[slug].syncMeta == None || st.posts[slug].syncMeta == Some(Unsynced)
    ensures StatusApplied(st, slug, Some(SyncStatusOut(st.posts[slug].syncMeta)), false) == st
  {
    assert st.posts[slug := st.posts[slug]] == st.posts;
  }

  /**
   * When a post's record re-imports onto that post: no slug prefix, a slug
   * that is a truthy fixed point of sanitizing the sanitized title, a
   * non-empty title and truthy content.
   */
  predicate Reimportable(e: Entity, s: string, env: Env) {
    && Falsy(env.prefix) && !Falsy(s) && e.title != "" && !Falsy(e.content)
    && env.sanitize(env.sanitize(e.title)) == s
  }

  /** The record exported for post `s` is accepted by the import, names `s`, and matches its title and content. */
  lemma RecordReimports(st: State, s: string, env: Env)
    requires s in st.posts && Reimportable(st.posts[s], s, env)
    ensures var inc := Validate(Some(Decoded(Project(st.posts[s], env.terms(s), env.prefix, env.sanitize))), env.sanitize);
      && inc.Some? && inc.value.slug == s
      && inc.value.title == st.posts[s].title && inc.value.content == st.posts[s].content
      && inc.value.categories == Categories(env.terms(s))
      && inc.value.syncStatus == Some(SyncStatusOut(st.posts[s].syncMeta))
  {
  }

  /**
   * An export with nothing to lose: every post is published, re-importable,
   * written successfully, and the sanitized titles (so the file names) are
   * pairwise distinct.
   */
  ghost predicate CleanExport(st: State, env: Env) {
    && (forall s :: s in st.posts ==> st.posts[s].published && Reimportable(st.posts[s], s, env))
    && (forall s :: s in st.posts ==> Attempt(st.posts, s, env).Some?)
    && (forall s, t :: s in st.posts && t in st.posts && s != t ==>
          env.sanitize(st.posts[s].title) != env.sanitize(st.posts[t].title))
  }

  /** `file` is one of the records of `w`. */
  ghost predicate FromDirectory(file: Option<RawRecord>, w: map<string, ExportRecord>) {
    exists f :: f in w && file == Some(Decoded(w[f]))
  }

  /** `files` lists the directory `w`: every file is a record of `w` and every record of `w` is some file. */
  ghost predicate Lists(files: seq<Option<RawRecord>>, w: map<string, ExportRecord>) {
    && (forall i :: 0 <= i < |files| ==> FromDirectory(files[i], w))
    && (forall f :: f in w ==> exists i :: 0 <= i < |files| && files[i] == Some(Decoded(w[f])))
  }

  ghost function Exported(st: State, env: Env): map<string, ExportRecord> {
    Written(map[], NameOrder(Published(st.posts)), st.posts, env)
  }

  /** Every file of a clean export re-imports onto the post it was written from, and is that post's file. */
  lemma FileReimports(st: State, env: Env, f: string)
    requires CleanExport(st, env) && f in Exported(st, env)
    ensures Validate(Some(Decoded(Exported(st, env)[f])), env.sanitize).Some?
    ensures var inc := Validate(Some(Decoded(Exported(st, env)[f])), env.sanitize).value;
      && inc.slug in st.posts && st.posts[inc.slug].title == inc.title && st.posts[inc.slug].content == inc.content
      && inc.syncStatus == Some(SyncStatusOut(st.posts[inc.slug].syncMeta))
      && f == FileName(env.dir, env.sanitize(st.posts[inc.slug].title))
  {
    var q := NameOrder(Published(st.posts));
    WrittenFromPost(map[], q, st.posts, env, f);
    var k :| 0 <= k < |q| && Attempt(st.posts, q[k], env) == Some(Write(f, Exported(st, env)[f]));
    RecordReimports(st, q[k], env);
  }

  /** In a clean export every post owns its file, and the file holds that post's record. */
  lemma PostListed(st: State, env: Env, s: string)
    requires CleanExport(st, env) && s in st.posts
    ensures var f := FileName(env.dir, env.sanitize(st.posts[s].title));
      f in Exported(st, env) && Exported(st, env)[f] == Project(st.posts[s], env.terms(s), env.prefix, env.sanitize)
  {
    var q := NameOrder(Published(st.posts));
    var f := FileName(env.dir, env.sanitize(st.posts[s].title));
    assert s in Published(st.posts);
    var k :| 0 <= k < |q| && q[k] == s;
    forall j | k < j < |q|
      ensures !WritesTo(st.posts, q[j], env, f)
    {
      var u := q[j];
      assert u in Published(st.posts);
      assert Before(q[k], q[j]);
      if u == s {
        BeforeIrreflexive(s);
      }
      OtherPostWritesElsewhere(st, env, s, u);
    }
    AttemptCases(st.posts, s, env);
    WrittenByLast(map[], q, st.posts, env, f, k);
  }

  /** In a clean export no other post writes to a post's file. */
  lemma OtherPostWritesElsewhere(st: State, env: Env, s: string, u: string)
    requires CleanExport(st, env) && s in st.posts && u in st.posts && s != u
    ensures !WritesTo(st.posts, u, env, FileName(env.dir, env.sanitize(st.posts[s].title)))
  {
    AttemptCases(st.posts, u, env);
    FileNameInjective(env.dir, env.sanitize(st.posts[s].title), env.sanitize(st.posts[u].title));
  }

  /** When every file is accepted, `seen` has one slug per file: the slug of that file. */
  lemma {:induction false} AllAcceptedSeen(files: seq<Option<RawRecord>>, sanitize: string -> string)
    requires forall i :: 0 <= i < |files| ==> Validate(files[i], sanitize).Some?
    ensures |Seen(files, sanitize)| == |files|
    ensures forall i :: 0 <= i < |files| ==> Seen(files, sanitize)[i] == Validate(files[i], sanitize).value.slug
    decreases |files|
  {
    if files != [] {
      var n := |files| - 1;
      var init := files[..n];
      assert forall i :: 0 <= i < |init| ==> init[i] == files[i];
      AllAcceptedSeen(init, sanitize);
      var slug := Validate(files[n], sanitize).value.slug;
      assert AcceptedSlug(files[n], sanitize) == Some(slug);
      assert Seen(files, sanitize) == Seen(init, sanitize) + [slug];
      forall i | 0 <= i < |files|
        ensures Seen(files, sanitize)[i] == Validate(files[i], sanitize).value.slug
      {
        if i < n {
          assert Seen(files, sanitize)[i] == Seen(init, sanitize)[i];
        }
      }
    }
  }

  /** A list without repetitions has as many distinct elements as entries. */
  lemma {:induction false} DistinctCount(xs: seq<string>)
    requires forall i, j :: 0 <= i < j < |xs| ==> xs[i] != xs[j]
    ensures |set x | x in xs| == |xs|
    decreases |xs|
  {
    if xs != [] {
      var n := |xs| - 1;
      var init := xs[..n];
      DistinctCount(init);
      assert xs[n] !in init;
      assert (set x | x in xs) == (set x | x in init) + {xs[n]};
    }
  }

  /** A list without repetitions whose elements are exactly `keys` has `|keys|` entries. */
  lemma DistinctEnumeration(xs: seq<string>, keys: set<string>)
    requires forall i, j :: 0 <= i < j < |xs| ==> xs[i] != xs[j]
    requires forall x :: x in xs <==> x in keys
    ensures |xs| == |keys|
  {
    DistinctCount(xs);
    assert (set x | x in xs) == keys;
  }

  /** Every file of a clean export's listing is accepted and matches its post. */
  lemma ListedFilesMatch(st: State, env: Env, files: seq<Option<RawRecord>>)
    requires CleanExport(st, env) && Lists(files, Exported(st, env))
    ensures forall i :: 0 <= i < |files| ==> Validate(files[i], env.sanitize).Some?
    ensures AllMatch(st, files, env.sanitize)
    ensures StatusesMatch(st, files, env.sanitize)
  {
    var w := Exported(st, env);
    forall i | 0 <= i < |files|
      ensures Validate(files[i], env.sanitize).Some?
      ensures var inc := Validate(files[i], env.sanitize).value;
        && inc.slug in st.posts && st.posts[inc.slug].title == inc.title && st.posts[inc.slug].content == inc.content
        && inc.syncStatus == Some(SyncStatusOut(st.posts[inc.slug].syncMeta))
    {
      assert FromDirectory(files[i], w);
      var f :| f in w && files[i] == Some(Decoded(w[f]));
      FileReimports(st, env, f);
    }
  }

  /** Every file of a clean export's listing is accepted by the import. */
  lemma ListedFilesAccepted(st: State, env: Env, files: seq<Option<RawRecord>>)
    requires CleanExport(st, env) && Lists(files, Exported(st, env))
    ensures forall i :: 0 <= i < |files| ==> Validate(files[i], env.sanitize).Some?
  {
    var w := Exported(st, env);
    forall i | 0 <= i < |files|
      ensures Validate(files[i], env.sanitize).Some?
    {
      assert FromDirectory(files[i], w);
      var f :| f in w && files[i] == Some(Decoded(w[f]));
      FileReimports(st, env, f);
    }
  }

  /** The slugs a clean export's listing makes the import see are exactly the posts. */
  lemma ListedSlugsArePosts(st: State, env: Env, files: seq<Option<RawRecord>>)
    requires CleanExport(st, env) && Lists(files, Exported(st, env))
    ensures forall s :: s in Seen(files, env.sanitize) <==> s in st.posts
  {
    var w := Exported(st, env);
    ListedFilesMatch(st, env, files);
    forall s | s in st.posts
      ensures s in Seen(files, env.sanitize)
    {
      PostListed(st, env, s);
      var f := FileName(env.dir, env.sanitize(st.posts[s].title));
      var i :| 0 <= i < |files| && files[i] == Some(Decoded(w[f]));
      RecordReimports(st, s, env);
      assert AcceptedSlug(files[i], env.sanitize) == Some(s);
      SeenIsAccepted(files, env.sanitize, s);
    }
    forall s | s in Seen(files, env.sanitize)
      ensures s in st.posts
    {
      SeenIsAccepted(files, env.sanitize, s);
    }
  }

  /**
   * A listing that names no file twice, as a directory glob does, makes the
   * import see no slug twice: distinct files hold distinct records, and
   * distinct records of a clean export belong to distinct posts.
   */
  lemma DistinctListingSeen(st: State, env: Env, files: seq<Option<RawRecord>>)
    requires CleanExport(st, env) && Lists(files, Exported(st, env))
    requires forall i, j :: 0 <= i < j < |files| ==> files[i] != files[j]
    ensures |Seen(files, env.sanitize)| == |files|
    ensures forall i, j :: 0 <= i < j < |files| ==> Seen(files, env.sanitize)[i] != Seen(files, env.sanitize)[j]
  {
    var w := Exported(st, env);
    var seen := Seen(files, env.sanitize);
    ListedFilesAccepted(st, env, files);
    AllAcceptedSeen(files, env.sanitize);
    forall i, j | 0 <= i < j < |files|
      ensures seen[i] != seen[j]
    {
      assert FromDirectory(files[i], w) && FromDirectory(files[j], w);
      var fi :| fi in w && files[i] == Some(Decoded(w[fi]));
      var fj :| fj in w && files[j] == Some(Decoded(w[fj]));
      DistinctFilesDistinctSlugs(st, env, fi, fj);
    }
  }

  /** Two different records of a clean export name two different posts. */
  lemma DistinctFilesDistinctSlugs(st: State, env: Env, f: string, g: string)
    requires CleanExport(st, env) && f in Exported(st, env) && g in Exported(st, env)
    requires Decoded(Exported(st, env)[f]) != Decoded(Exported(st, env)[g])
    ensures Validate(Some(Decoded(Exported(st, env)[f])), env.sanitize).Some?
    ensures Validate(Some(Decoded(Exported(st, env)[g])), env.sanitize).Some?
    ensures Validate(Some(Decoded(Exported(st, env)[f])), env.sanitize).value.slug !=
      Validate(Some(Decoded(Exported(st, env)[g])), env.sanitize).value.slug
  {
    FileReimports(st, env, f);
    FileReimports(st, env, g);
  }

  /** Such a listing names each post exactly once. */
  lemma DistinctListingCount(st: State, env: Env, files: seq<Option<RawRecord>>)
    requires CleanExport(st, env) && Lists(files, Exported(st, env))
    requires forall i, j :: 0 <= i < j < |files| ==> files[i] != files[j]
    ensures |files| == |st.posts|
  {
    var seen := Seen(files, env.sanitize);
    DistinctListingSeen(st, env, files);
    ListedSlugsArePosts(st, env, files);
    DistinctEnumeration(seen, st.posts.Keys);
  }

  /** What the import of such a listing sees and leaves after its first pass. */
  lemma MatchingListingIngest(st: State, files: seq<Option<RawRecord>>, dryRun: bool, sanitize: string -> string, faults: Faults)
    requires forall i :: 0 <= i < |files| ==> Validate(files[i], sanitize).Some?
    requires AllMatch(st, files, sanitize)
    requires forall s :: s in Seen(files, sanitize) <==> s in st.posts
    ensures Ingested(st, files, dryRun, sanitize, faults).tally == Tally(0, 0, |files|)
    ensures Ingested(st, files, dryRun, sanitize, faults).state.posts.Keys == st.posts.Keys
    ensures KeepsTitlesAndContents(st, Ingested(st, files, dryRun, sanitize, faults).state)
  {
    AllAcceptedSeen(files, sanitize);
    MatchingIngest(st, files, dryRun, sanitize, faults);
    IngestedKeys(st, files, dryRun, sanitize, faults);
  }

  /** Every accepted file naming a post carries the status that post is exported with. */
  ghost predicate StatusesMatch(st: State, files: seq<Option<RawRecord>>, sanitize: string -> string) {
    forall i :: 0 <= i < |files| && Validate(files[i], sanitize).Some? && Validate(files[i], sanitize).value.slug in st.posts ==>
      Validate(files[i], sanitize).value.syncStatus == Some(SyncStatusOut(st.posts[Validate(files[i], sanitize).value.slug].syncMeta))
  }

  /** The meta a post has after its exported status is imported again: "unsynced" stays, anything else is cleared. */
  function ReimportedMeta(m: Option<string>): (r: Option<string>)
    ensures r == Some(Unsynced) <==> m == Some(Unsynced)
    ensures r != Some(Unsynced) ==> r == None
  {
    if m == Some(Unsynced) then Some(Unsynced) else None
  }

  /** One unchanged record: outside dry-run only its post's meta moves, to the normalised incoming status. */
  lemma UnchangedStatus(st: State, inc: Incoming, dryRun: bool, faults: Faults)
    requires inc.slug in st.posts && Decide(st, inc, dryRun, faults) == Unchanged
    ensures var r := Applied(st, inc, dryRun, faults);
      forall s :: s in st.posts ==>
        && s in r.posts
        && r.posts[s].syncMeta ==
             if !dryRun && s == inc.slug then (if inc.syncStatus == Some(Unsynced) then Some(Unsynced) else None)
             else st.posts[s].syncMeta
  {
  }

  /** Both matching properties hold of the files but the last. */
  lemma PrefixMatches(st: State, files: seq<Option<RawRecord>>, sanitize: string -> string)
    requires files != [] && AllMatch(st, files, sanitize) && StatusesMatch(st, files, sanitize)
    ensures AllMatch(st, files[..|files| - 1], sanitize) && StatusesMatch(st, files[..|files| - 1], sanitize)
  {
    var init := files[..|files| - 1];
    assert forall i :: 0 <= i < |init| ==> init[i] == files[i];
  }

  /** The meta invariant of `MatchingStatuses`, carried over one more seen slug. */
  lemma StatusStep(st: State, p0: State, r: State, seen0: seq<string>, slug: string, status: Option<string>, dryRun: bool)
    requires forall s :: s in st.posts ==>
      && s in p0.posts
      && p0.posts[s].syncMeta == if !dryRun && s in seen0 then ReimportedMeta(st.posts[s].syncMeta) else st.posts[s].syncMeta
    requires slug in st.posts && status == Some(SyncStatusOut(st.posts[slug].syncMeta))
    requires forall s :: s in p0.posts ==>
      && s in r.posts
      && r.posts[s].syncMeta ==
           if !dryRun && s == slug then (if status == Some(Unsynced) then Some(Unsynced) else None)
           else p0.posts[s].syncMeta
    ensures forall s :: s in st.posts ==>
      && s in r.posts
      && r.posts[s].syncMeta ==
           if !dryRun && s in seen0 + [slug] then ReimportedMeta(st.posts[s].syncMeta) else st.posts[s].syncMeta
  {
    forall s | s in st.posts
      ensures s in r.posts
      ensures r.posts[s].syncMeta ==
        if !dryRun && s in seen0 + [slug] then ReimportedMeta(st.posts[s].syncMeta) else st.posts[s].syncMeta
    {
      assert s in p0.posts;
    }
  }

  /**
   * Matching files that carry the exported statuses: outside dry-run every
   * seen post ends with `ReimportedMeta` of its old meta; every other post, and
   * every post in dry-run, keeps its meta.
   */
  lemma {:induction false} MatchingStatuses(st: State, files: seq<Option<RawRecord>>, dryRun: bool, sanitize: string -> string, faults: Faults)
    requires AllMatch(st, files, sanitize) && StatusesMatch(st, files, sanitize)
    ensures var p := Ingested(st, files, dryRun, sanitize, faults);
      forall s :: s in st.posts ==>
        && s in p.state.posts
        && p.state.posts[s].syncMeta ==
             if !dryRun && s in Seen(files, sanitize) then ReimportedMeta(st.posts[s].syncMeta) else st.posts[s].syncMeta
    decreases |files|
  {
    if files != [] {
      var n := |files| - 1;
      var init := files[..n];
      PrefixMatches(st, files, sanitize);
      MatchingStatuses(st, init, dryRun, sanitize, faults);
      MatchingIngest(st, init, dryRun, sanitize, faults);
      var p0 := Ingested(st, init, dryRun, sanitize, faults);
      match Validate(files[n], sanitize)
      case None =>
        assert Ingested(st, files, dryRun, sanitize, faults) == p0;
        assert Seen(files, sanitize) == Seen(init, sanitize);
      case Some(inc) =>
        assert inc.slug in st.posts;
        assert inc.syncStatus == Some(SyncStatusOut(st.posts[inc.slug].syncMeta));
        assert Decide(p0.state, inc, dryRun, faults) == Unchanged;
        UnchangedStatus(p0.state, inc, dryRun, faults);
        var r := Applied(p0.state, inc, dryRun, faults);
        assert Ingested(st, files, dryRun, sanitize, faults).state == r;
        assert Seen(files, sanitize) == Seen(init, sanitize) + [inc.slug];
        StatusStep(st, p0.state, r, Seen(init, sanitize), inc.slug, inc.syncStatus, dryRun);
    }
  }

  /** When every post was seen, the deletion pass has nothing to do. */
  lemma PurgeAllSeen(st: State, seen: seq<string>)
    requires forall s :: s in st.posts ==> s in seen
    ensures Purged(st, seen) == st
    ensures (set s | s in st.posts && s !in seen) == {}
  {
    assert Purged(st, seen).posts == st.posts;
  }

  /** `Imported` on a non-empty directory, unfolded once. */
  lemma ImportedUnfolds(st: State, files: seq<Option<RawRecord>>, dryRun: bool, sanitize: string -> string, faults: Faults)
    requires files != []
    ensures var p := Ingested(st, files, dryRun, sanitize, faults);
      var seen := Seen(files, sanitize);
      Imported(st, files, dryRun, sanitize, faults) ==
      Outcome(if dryRun then p.state else Purged(p.state, seen), Done(p.tally.created, p.tally.updated, p.tally.unaltered, set s | s in p.state.posts && s !in seen))
  {
  }

  /**
   * Importing files that are all accepted, all match their posts and name
   * every post changes nothing that matters.
   */
  lemma MatchingListingImport(st: State, files: seq<Option<RawRecord>>, dryRun: bool, sanitize: string -> string, faults: Faults)
    requires forall i :: 0 <= i < |files| ==> Validate(files[i], sanitize).Some?
    requires AllMatch(st, files, sanitize)
    requires st.posts != map[] && forall s :: s in Seen(files, sanitize) <==> s in st.posts
    ensures Imported(st, files, dryRun, sanitize, faults).summary == Done(0, 0, |files|, {})
    ensures Imported(st, files, dryRun, sanitize, faults).state.posts.Keys == st.posts.Keys
    ensures KeepsTitlesAndContents(st, Imported(st, files, dryRun, sanitize, faults).state)
  {
    var seen := Seen(files, sanitize);
    var s0 :| s0 in st.posts;
    assert s0 in seen;
    assert files != [];
    MatchingListingIngest(st, files, dryRun, sanitize, faults);
    var p := Ingested(st, files, dryRun, sanitize, faults);
    PurgeAllSeen(p.state, seen);
    ImportedUnfolds(st, files, dryRun, sanitize, faults);
  }

  /**
   * The sync meta after importing files that are all accepted, match their
   * posts, carry their posts' exported status and name every post: a dry run
   * leaves it alone; otherwise each post's meta becomes "unsynced" if it was,
   * and is deleted if it was anything else.
   */
  lemma MatchingListingMeta(st: State, files: seq<Option<RawRecord>>, dryRun: bool, sanitize: string -> string, faults: Faults)
    requires AllMatch(st, files, sanitize) && StatusesMatch(st, files, sanitize)
    requires st.posts != map[] && forall s :: s in Seen(files, sanitize) <==> s in st.posts
    ensures var r := Imported(st, files, dryRun, sanitize, faults).state;
      forall s :: s in st.posts ==>
        && s in r.posts
        && r.posts[s].syncMeta == if dryRun then st.posts[s].syncMeta else ReimportedMeta(st.posts[s].syncMeta)
  {
    var seen := Seen(files, sanitize);
    var s0 :| s0 in st.posts;
    assert s0 in seen;
    assert files != [];
    var p := Ingested(st, files, dryRun, sanitize, faults);
    MatchingStatuses(st, files, dryRun, sanitize, faults);
    IngestedKeys(st, files, dryRun, sanitize, faults);
    assert forall s :: s in p.state.posts ==> s in seen;
    PurgeAllSeen(p.state, seen);
    ImportedUnfolds(st, files, dryRun, sanitize, faults);
    assert Imported(st, files, dryRun, sanitize, faults).state == p.state;
  }

  /**
   * Export then import, end to end: importing the files of a clean export
   * (in any listing order, dry-run or not) creates, updates and deletes
   * nothing, counts every file as unchanged, and keeps every post's title and
   * content. Outside a dry run the sync meta is normalised: "unsynced" stays,
   * any other value is deleted, so a store whose metas are only absent or
   * "unsynced" keeps them all.
   */
  lemma ExportThenImport(st: State, env: Env, files: seq<Option<RawRecord>>, dryRun: bool, faults: Faults)
    requires st.posts != map[] && CleanExport(st, env)
    requires Lists(files, Exported(st, env))
    ensures Imported(st, files, dryRun, env.sanitize, faults).summary == Done(0, 0, |files|, {})
    ensures Imported(st, files, dryRun, env.sanitize, faults).state.posts.Keys == st.posts.Keys
    ensures KeepsTitlesAndContents(st, Imported(st, files, dryRun, env.sanitize, faults).state)
    ensures var r := Imported(st, files, dryRun, env.sanitize, faults).state;
      forall s :: s in st.posts ==>
        r.posts[s].syncMeta == if dryRun then st.posts[s].syncMeta else ReimportedMeta(st.posts[s].syncMeta)
    ensures var r := Imported(st, files, dryRun, env.sanitize, faults).state;
      TwoValuedMeta(st) ==> forall s :: s in st.posts ==> r.posts[s].syncMeta == st.posts[s].syncMeta
    ensures (forall i, j :: 0 <= i < j < |files| ==> files[i] != files[j]) ==>
      Imported(st, files, dryRun, env.sanitize, faults).summary.unaltered == |st.posts|
  {
    ListedFilesMatch(st, env, files);
    ListedSlugsArePosts(st, env, files);
    MatchingListingImport(st, files, dryRun, env.sanitize, faults);
    MatchingListingMeta(st, files, dryRun, env.sanitize, faults);
    var r := Imported(st, files, dryRun, env.sanitize, faults).state;
    if TwoValuedMeta(st) {
      forall s | s in st.posts
        ensures r.posts[s].syncMeta == st.posts[s].syncMeta
      {
        assert st.posts[s].syncMeta in {None, Some(Unsynced)};
      }
    }
    if forall i, j :: 0 <= i < j < |files| ==> files[i] != files[j] {
      DistinctListingCount(st, env, files);
    }
  }

  /**
   * With a non-empty prefix the exported slug is `prefix/stem`, which the
   * import sanitizes again. Unless that lands on the post's own slug, the
   * record of a lone pattern does not find its post: the import creates a
   * new post under the other slug and deletes the original.
   */
  lemma PrefixedRecordReplacesPost(st: State, s: string, env: Env, faults: Faults)
    requires st.posts.Keys == {s}
    requires !Falsy(env.prefix) && !Falsy(st.posts[s].content)
    requires var slug := env.sanitize(env.prefix + "/" + env.sanitize(st.posts[s].title));
      !Falsy(slug) && slug != s
    ensures var file := Some(Decoded(Project(st.posts[s], env.terms(s), env.prefix, env.sanitize)));
      var slug := env.sanitize(env.prefix + "/" + env.sanitize(st.posts[s].title));
      var o := Imported(st, [file], false, env.sanitize, faults);
      && s !in o.state.posts
      && o.summary.Done? && o.summary.deleted == {s}
      && (!faults.insertPost(slug) <==> (slug in o.state.posts && o.summary.created == 1))
  {
    var e := st.posts[s];
    var file := Some(Decoded(Project(e, env.terms(s), env.prefix, env.sanitize)));
    var slug := env.sanitize(env.prefix + "/" + env.sanitize(e.title));
    var files := [file];
    var inc := Validate(file, env.sanitize).value;
    assert inc.slug == slug && slug !in st.posts;
    assert files[..0] == [];
    var p := Progress(Applied(st, inc, false, faults), Counted(Tally(0, 0, 0), Decide(st, inc, false, faults)));
    assert Ingested(st, files, false, env.sanitize, faults) == p;
    assert Seen(files, env.sanitize) == [slug];
    ImportedUnfolds(st, files, false, env.sanitize, faults);
    if faults.insertPost(slug) {
      assert p.state == st;
    } else {
      assert p.state.posts.Keys == {s, slug} && p.tally.created == 1;
    }
    DeletionCorrect(st, files, env.sanitize, faults);
  }
}
