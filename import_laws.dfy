/**
 * What the import promises, proved about the functions of module ImportSpec:
 * dry-run is an observation only, deletion keeps exactly the seen slugs, the
 * counters are bounded by the accepted files, category reconciliation assigns
 * exactly the resolvable names, and the store's invariants survive a run.
 */
module ImportLaws {
  import opened Wrappers
  import opened PhpStrings
  import opened PatternStore
  import opened ImportSpec

  // ---------------------------------------------------------------------
  // Dry-run

  lemma {:induction false} DryIngestChangesNothing(st: State, files: seq<Option<RawRecord>>, sanitize: string -> string, faults: Faults)
    ensures Ingested(st, files, true, sanitize, faults).state == st
    ensures Ingested(st, files, true, sanitize, faults).tally.created == 0
    ensures Ingested(st, files, true, sanitize, faults).tally.updated == 0
    decreases |files|
  {
    if files != [] {
      DryIngestChangesNothing(st, files[..|files| - 1], sanitize, faults);
    }
  }

  /**
   * In dry-run the store (posts, terms, meta, taxonomy) is the same after the
   * run, nothing is counted as created or updated, and the posts reported as
   * deleted are exactly those whose slug was not seen.
   */
  lemma DryRunChangesNothing(st: State, files: seq<Option<RawRecord>>, sanitize: string -> string, faults: Faults)
    ensures Imported(st, files, true, sanitize, faults).state == st
    ensures files != [] ==>
      && Imported(st, files, true, sanitize, faults).summary.created == 0
      && Imported(st, files, true, sanitize, faults).summary.updated == 0
      && Imported(st, files, true, sanitize, faults).summary.deleted == set s | s in st.posts && s !in Seen(files, sanitize)
  {
    DryIngestChangesNothing(st, files, sanitize, faults);
  }

  // ---------------------------------------------------------------------
  // The `seen` list and the deletion pass

  /** A slug is in `seen` exactly when some file was accepted with that slug, whatever became of it. */
  lemma {:induction false} SeenIsAccepted(files: seq<Option<RawRecord>>, sanitize: string -> string, s: string)
    ensures s in Seen(files, sanitize) <==>
      exists i :: 0 <= i < |files| && AcceptedSlug(files[i], sanitize) == Some(s)
    decreases |files|
  {
    if files != [] {
      var init := files[..|files| - 1];
      SeenIsAccepted(init, sanitize, s);
      if s in Seen(files, sanitize) && s !in Seen(init, sanitize) {
        assert AcceptedSlug(files[|files| - 1], sanitize) == Some(s);
      }
      if s !in Seen(files, sanitize) {
        forall i | 0 <= i < |files|
          ensures AcceptedSlug(files[i], sanitize) != Some(s)
        {
          if i < |files| - 1 {
            assert files[i] == init[i];
          }
        }
      }
      if s in Seen(init, sanitize) {
        var i :| 0 <= i < |init| && AcceptedSlug(init[i], sanitize) == Some(s);
        assert files[i] == init[i];
      }
    }
  }

  /** The file loop never removes a post, and only adds posts whose slug it saw. */
  lemma {:induction false} IngestedKeys(st: State, files: seq<Option<RawRecord>>, dryRun: bool, sanitize: string -> string, faults: Faults)
    ensures st.posts.Keys <= Ingested(st, files, dryRun, sanitize, faults).state.posts.Keys
    ensures forall s :: s in Ingested(st, files, dryRun, sanitize, faults).state.posts ==>
      s in st.posts || s in Seen(files, sanitize)
    decreases |files|
  {
    if files != [] {
      IngestedKeys(st, files[..|files| - 1], dryRun, sanitize, faults);
    }
  }

  /**
   * Outside dry-run, a post that existed before the run is still there after
   * it exactly when its slug was seen; every post left has a seen slug; and
   * the posts reported deleted are the old posts whose slug was not seen.
   */
  lemma DeletionCorrect(st: State, files: seq<Option<RawRecord>>, sanitize: string -> string, faults: Faults)
    requires files != []
    ensures forall s :: s in st.posts ==>
      (s in Imported(st, files, false, sanitize, faults).state.posts <==> s in Seen(files, sanitize))
    ensures forall s :: s in Imported(st, files, false, sanitize, faults).state.posts ==> s in Seen(files, sanitize)
    ensures Imported(st, files, false, sanitize, faults).summary.deleted ==
      set s | s in st.posts && s !in Seen(files, sanitize)
  {
    IngestedKeys(st, files, false, sanitize, faults);
  }

  /** An empty directory returns before the deletion pass: nothing changes at all. */
  lemma EmptyDirectoryDeletesNothing(st: State, dryRun: bool, sanitize: string -> string, faults: Faults)
    ensures Imported(st, [], dryRun, sanitize, faults) == Outcome(st, NothingToImport)
  {
  }

  /**
   * A file that fails validation is skipped outright: appending it to the
   * directory changes neither the store nor the counters nor `seen`.
   */
  lemma SkippedFileIsIgnored(st: State, files: seq<Option<RawRecord>>, file: Option<RawRecord>, dryRun: bool, sanitize: string -> string, faults: Faults)
    requires Validate(file, sanitize).None?
    ensures Ingested(st, files + [file], dryRun, sanitize, faults) == Ingested(st, files, dryRun, sanitize, faults)
    ensures Seen(files + [file], sanitize) == Seen(files, sanitize)
  {
    assert (files + [file])[..|files|] == files;
  }

  /**
   * "Seen before outcome": an accepted file whose slug names an existing post
   * protects that post from deletion, even when its update fails.
   */
  lemma AcceptedExistingSurvives(st: State, files: seq<Option<RawRecord>>, i: nat, dryRun: bool, sanitize: string -> string, faults: Faults)
    requires i < |files| && AcceptedSlug(files[i], sanitize).Some?
    requires AcceptedSlug(files[i], sanitize).value in st.posts
    ensures AcceptedSlug(files[i], sanitize).value in Imported(st, files, dryRun, sanitize, faults).state.posts
  {
    var s := AcceptedSlug(files[i], sanitize).value;
    SeenIsAccepted(files, sanitize, s);
    if dryRun {
      DryRunChangesNothing(st, files, sanitize, faults);
    } else {
      DeletionCorrect(st, files, sanitize, faults);
    }
  }

  // ---------------------------------------------------------------------
  // Counters

  /** Every accepted file bumps at most one counter; skipped files bump none. */
  lemma {:induction false} TallyBounded(st: State, files: seq<Option<RawRecord>>, dryRun: bool, sanitize: string -> string, faults: Faults)
    ensures var t := Ingested(st, files, dryRun, sanitize, faults).tally;
      t.created + t.updated + t.unaltered <= |Seen(files, sanitize)| <= |files|
    decreases |files|
  {
    if files != [] {
      TallyBounded(st, files[..|files| - 1], dryRun, sanitize, faults);
    }
  }

  /** The posts of `st` keep their title and content in `st'`. */
  ghost predicate KeepsTitlesAndContents(st: State, st': State) {
    forall s :: s in st.posts ==>
      s in st'.posts && st'.posts[s].title == st.posts[s].title && st'.posts[s].content == st.posts[s].content
  }

  /** Every accepted file names a post of `st` with the same title and content. */
  ghost predicate AllMatch(st: State, files: seq<Option<RawRecord>>, sanitize: string -> string) {
    forall i :: 0 <= i < |files| && Validate(files[i], sanitize).Some? ==>
      var inc := Validate(files[i], sanitize).value;
      inc.slug in st.posts && st.posts[inc.slug].title == inc.title && st.posts[inc.slug].content == inc.content
  }

  lemma {:induction false} MatchingIngest(st: State, files: seq<Option<RawRecord>>, dryRun: bool, sanitize: string -> string, faults: Faults)
    requires AllMatch(st, files, sanitize)
    ensures KeepsTitlesAndContents(st, Ingested(st, files, dryRun, sanitize, faults).state)
    ensures Ingested(st, files, dryRun, sanitize, faults).tally == Tally(0, 0, |Seen(files, sanitize)|)
    decreases |files|
  {
    if files != [] {
      var init := files[..|files| - 1];
      assert AllMatch(st, init, sanitize) by {
        forall i | 0 <= i < |init| && Validate(init[i], sanitize).Some?
          ensures var inc := Validate(init[i], sanitize).value;
            inc.slug in st.posts && st.posts[inc.slug].title == inc.title && st.posts[inc.slug].content == inc.content
        {
          assert init[i] == files[i];
        }
      }
      MatchingIngest(st, init, dryRun, sanitize, faults);
      var last := |files| - 1;
      assert Validate(files[last], sanitize).Some? ==> Validate(files[last], sanitize).value.slug in st.posts;
    }
  }

  /**
   * Re-importing files that all match the store (same slug, title and
   * content) creates and updates nothing and counts every accepted file as
   * unchanged, in dry-run or not.
   */
  lemma ReimportIsUnchanged(st: State, files: seq<Option<RawRecord>>, dryRun: bool, sanitize: string -> string, faults: Faults)
    requires files != [] && AllMatch(st, files, sanitize)
    ensures var o := Imported(st, files, dryRun, sanitize, faults);
      o.summary.created == 0 && o.summary.updated == 0 && o.summary.unaltered == |Seen(files, sanitize)|
  {
    MatchingIngest(st, files, dryRun, sanitize, faults);
  }

  // ---------------------------------------------------------------------
  // Category reconciliation

  /**
   * One more name: earlier terms are kept, the collected ids grow by at most
   * that name's term, and only when the name is resolvable; a resolvable name
   * is covered.
   */
  lemma GatherLast(st: State, names: seq<string>, dryRun: bool, faults: Faults)
    requires names != []
    ensures var g0 := Gather(st, names[..|names| - 1], dryRun, faults);
      var g := Gather(st, names, dryRun, faults);
      var name := Trim(names[|names| - 1]);
      && (forall n :: n in g0.state.taxonomy ==> n in g.state.taxonomy && g.state.taxonomy[n] == g0.state.taxonomy[n])
      && (g.ids == g0.ids ||
          (g.ids == g0.ids + [g.state.taxonomy[name]] && name in g.state.taxonomy
           && Resolvable(st, names[|names| - 1], dryRun, faults)))
      && (Resolvable(st, names[|names| - 1], dryRun, faults) ==> name in g.state.taxonomy && g.state.taxonomy[name] in g.ids)
  {
    var g0 := Gather(st, names[..|names| - 1], dryRun, faults);
    var name := Trim(names[|names| - 1]);
    if name == "" {
      assert Gather(st, names, dryRun, faults) == g0;
    } else if name in g0.state.taxonomy {
      assert Gather(st, names, dryRun, faults) == Gathered(g0.state, g0.ids + [g0.state.taxonomy[name]]);
    } else if dryRun || faults.insertTerm(name) {
      assert Gather(st, names, dryRun, faults) == g0;
    } else {
      assert Gather(st, names, dryRun, faults) == Gathered(WithTerm(g0.state, name), g0.ids + [g0.state.nextTermId]);
    }
  }

  /** A name covered by `g0` stays covered by a `g` that extends it. */
  lemma CoveredKept(n: string, g0: Gathered, g: Gathered)
    requires n in g0.state.taxonomy && g0.state.taxonomy[n] in g0.ids
    requires forall m :: m in g0.state.taxonomy ==> m in g.state.taxonomy && g.state.taxonomy[m] == g0.state.taxonomy[m]
    requires forall i :: i in g0.ids ==> i in g.ids
    ensures n in g.state.taxonomy && g.state.taxonomy[n] in g.ids
  {
  }

  /** Every resolvable name gets a term, and its id is collected. */
  lemma {:induction false} GatherCovers(st: State, names: seq<string>, dryRun: bool, faults: Faults)
    ensures var g := Gather(st, names, dryRun, faults);
      forall k :: 0 <= k < |names| && Resolvable(st, names[k], dryRun, faults) ==>
        Trim(names[k]) in g.state.taxonomy && g.state.taxonomy[Trim(names[k])] in g.ids
    decreases |names|
  {
    if names != [] {
      var init := names[..|names| - 1];
      GatherCovers(st, init, dryRun, faults);
      GatherLast(st, names, dryRun, faults);
      var g0 := Gather(st, init, dryRun, faults);
      var g := Gather(st, names, dryRun, faults);
      assert forall i :: i in g0.ids ==> i in g.ids;
      forall k | 0 <= k < |names| && Resolvable(st, names[k], dryRun, faults)
        ensures Trim(names[k]) in g.state.taxonomy && g.state.taxonomy[Trim(names[k])] in g.ids
      {
        if k < |names| - 1 {
          assert names[k] == init[k];
          assert Resolvable(st, init[k], dryRun, faults);
          CoveredKept(Trim(names[k]), g0, g);
        }
      }
    }
  }

  /** `i` is, in `taxonomy`, the term of some resolvable name of `names`. */
  ghost predicate TermOfSomeName(st: State, names: seq<string>, dryRun: bool, faults: Faults, taxonomy: map<string, nat>, i: nat) {
    exists k :: 0 <= k < |names| && Resolvable(st, names[k], dryRun, faults)
      && Trim(names[k]) in taxonomy && taxonomy[Trim(names[k])] == i
  }

  lemma SoundExtend(st: State, init: seq<string>, names: seq<string>, dryRun: bool, faults: Faults,
                    tax0: map<string, nat>, tax: map<string, nat>, i: nat)
    requires |init| <= |names| && init == names[..|init|]
    requires forall n :: n in tax0 ==> n in tax && tax[n] == tax0[n]
    requires TermOfSomeName(st, init, dryRun, faults, tax0, i)
    ensures TermOfSomeName(st, names, dryRun, faults, tax, i)
  {
    var k :| 0 <= k < |init| && Resolvable(st, init[k], dryRun, faults)
      && Trim(init[k]) in tax0 && tax0[Trim(init[k])] == i;
    assert names[k] == init[k];
  }

  /** Every collected id is the term of some resolvable name of the list. */
  lemma {:induction false} GatherSound(st: State, names: seq<string>, dryRun: bool, faults: Faults)
    ensures var g := Gather(st, names, dryRun, faults);
      forall j :: 0 <= j < |g.ids| ==> TermOfSomeName(st, names, dryRun, faults, g.state.taxonomy, g.ids[j])
    decreases |names|
  {
    if names != [] {
      var init := names[..|names| - 1];
      GatherSound(st, init, dryRun, faults);
      GatherLast(st, names, dryRun, faults);
      var g0 := Gather(st, init, dryRun, faults);
      var g := Gather(st, names, dryRun, faults);
      var last := |names| - 1;
      forall j | 0 <= j < |g.ids|
        ensures TermOfSomeName(st, names, dryRun, faults, g.state.taxonomy, g.ids[j])
      {
        if j < |g0.ids| {
          assert g.ids[j] == g0.ids[j];
          SoundExtend(st, init, names, dryRun, faults, g0.state.taxonomy, g.state.taxonomy, g0.ids[j]);
        } else {
          assert Trim(names[last]) in g.state.taxonomy && g.state.taxonomy[Trim(names[last])] == g.ids[j];
        }
      }
    }
  }

  /** No name resolvable: nothing is collected. */
  lemma {:induction false} GatherNothing(st: State, names: seq<string>, dryRun: bool, faults: Faults)
    requires forall k :: 0 <= k < |names| ==> !Resolvable(st, names[k], dryRun, faults)
    ensures Gather(st, names, dryRun, faults).ids == []
    decreases |names|
  {
    if names != [] {
      var init := names[..|names| - 1];
      assert forall k :: 0 <= k < |init| ==> init[k] == names[k];
      GatherNothing(st, init, dryRun, faults);
    }
  }

  /**
   * Outside dry-run, when `wp_set_object_terms` succeeds: if some category
   * name is resolvable, the post's terms become exactly the terms of the
   * resolvable names; if none is (an empty list, only blank names, only
   * names whose creation fails), the post's terms are left as they were.
   */
  lemma TermsAssigned(st: State, slug: string, cats: seq<string>, faults: Faults)
    requires slug in st.posts && !faults.setTerms(slug)
    ensures var r := TermsReconciled(st, slug, cats, false, faults);
      (exists k :: 0 <= k < |cats| && Resolvable(st, cats[k], false, faults)) ==>
        && (forall k :: 0 <= k < |cats| && Resolvable(st, cats[k], false, faults) ==>
              Trim(cats[k]) in r.taxonomy && r.taxonomy[Trim(cats[k])] in r.posts[slug].terms)
        && (forall i :: i in r.posts[slug].terms ==> TermOfSomeName(st, cats, false, faults, r.taxonomy, i))
    ensures var r := TermsReconciled(st, slug, cats, false, faults);
      (forall k :: 0 <= k < |cats| ==> !Resolvable(st, cats[k], false, faults)) ==> r.posts == st.posts
  {
    var g := Gather(st, cats, false, faults);
    var r := TermsReconciled(st, slug, cats, false, faults);
    GatherCovers(st, cats, false, faults);
    GatherSound(st, cats, false, faults);
    if forall k :: 0 <= k < |cats| ==> !Resolvable(st, cats[k], false, faults) {
      GatherNothing(st, cats, false, faults);
    } else {
      assert g.ids != [] by {
        var k :| 0 <= k < |cats| && Resolvable(st, cats[k], false, faults);
        assert g.state.taxonomy[Trim(cats[k])] in g.ids;
      }
      assert r == WithTerms(g.state, slug, set i | i in g.ids);
      assert r.taxonomy == g.state.taxonomy;
      forall i | i in r.posts[slug].terms
        ensures TermOfSomeName(st, cats, false, faults, r.taxonomy, i)
      {
        var j :| 0 <= j < |g.ids| && g.ids[j] == i;
      }
    }
  }

  /**
   * Lines 160, 167, 182 outside dry-run: when a record is created, updated or
   * unchanged and `wp_set_object_terms` succeeds, the post's terms are those of
   * the resolvable category names; with none, a new post has no terms and an
   * existing one keeps its own.
   */
  lemma AppliedTermsAssigned(st: State, inc: Incoming, faults: Faults)
    requires Decide(st, inc, false, faults) in {Created, Decision.Updated, Unchanged} && !faults.setTerms(inc.slug)
    ensures var r := Applied(st, inc, false, faults);
      (exists k :: 0 <= k < |inc.categories| && Resolvable(st, inc.categories[k], false, faults)) ==>
        && (forall k :: 0 <= k < |inc.categories| && Resolvable(st, inc.categories[k], false, faults) ==>
              Trim(inc.categories[k]) in r.taxonomy && r.taxonomy[Trim(inc.categories[k])] in r.posts[inc.slug].terms)
        && (forall i :: i in r.posts[inc.slug].terms ==> TermOfSomeName(st, inc.categories, false, faults, r.taxonomy, i))
    ensures var r := Applied(st, inc, false, faults);
      (forall k :: 0 <= k < |inc.categories| ==> !Resolvable(st, inc.categories[k], false, faults)) ==>
        r.posts[inc.slug].terms == if inc.slug in st.posts then st.posts[inc.slug].terms else {}
  {
    var d := Decide(st, inc, false, faults);
    var st1 := if d == Created then Inserted(st, inc.slug, inc.title, inc.content)
      else if d == Decision.Updated then Edited(st, inc.slug, inc.title, inc.content)
      else st;
    var r := Applied(st, inc, false, faults);
    assert r == Reconciled(st1, inc, false, faults);
    var t := TermsReconciled(st1, inc.slug, inc.categories, false, faults);
    assert r == StatusApplied(t, inc.slug, inc.syncStatus, false);
    assert r.taxonomy == t.taxonomy && r.posts[inc.slug].terms == t.posts[inc.slug].terms;
    assert st1.taxonomy == st.taxonomy;
    assert st1.posts[inc.slug].terms == if inc.slug in st.posts then st.posts[inc.slug].terms else {};
    TermsAssigned(st1, inc.slug, inc.categories, faults);
    assert forall k :: 0 <= k < |inc.categories| ==>
      Resolvable(st1, inc.categories[k], false, faults) == Resolvable(st, inc.categories[k], false, faults);
    forall i | i in r.posts[inc.slug].terms && TermOfSomeName(st1, inc.categories, false, faults, r.taxonomy, i)
      ensures TermOfSomeName(st, inc.categories, false, faults, r.taxonomy, i)
    {
      var k :| 0 <= k < |inc.categories| && Resolvable(st1, inc.categories[k], false, faults)
        && Trim(inc.categories[k]) in r.taxonomy && r.taxonomy[Trim(inc.categories[k])] == i;
    }
  }

  // ---------------------------------------------------------------------
  // Invariants of the store that a run keeps

  lemma WithTermKeepsValid(st: State, name: string)
    requires Valid(st) && name !in st.taxonomy
    ensures Valid(WithTerm(st, name))
  {
    var r := WithTerm(st, name);
    forall s | s in r.posts
      ensures r.posts[s].terms <= r.taxonomy.Values
    {
      forall i | i in r.posts[s].terms
        ensures i in r.taxonomy.Values
      {
        var n :| n in st.taxonomy && st.taxonomy[n] == i;
        assert r.taxonomy[n] == i;
      }
    }
  }

  lemma WithTermsKeepsValid(st: State, slug: string, ids: set<nat>)
    requires Valid(st) && ids <= st.taxonomy.Values
    ensures Valid(WithTerms(st, slug, ids))
  {
  }

  lemma WithMetaKeepsValid(st: State, slug: string, meta: Option<string>)
    requires Valid(st)
    ensures Valid(WithMeta(st, slug, meta))
  {
  }

  lemma InsertedKeepsValid(st: State, slug: string, title: string, content: string)
    requires Valid(st) && slug !in st.posts
    ensures Valid(Inserted(st, slug, title, content))
  {
  }

  lemma EditedKeepsValid(st: State, slug: string, title: string, content: string)
    requires Valid(st)
    ensures Valid(Edited(st, slug, title, content))
  {
  }

  lemma {:induction false} GatherKeepsValid(st: State, names: seq<string>, dryRun: bool, faults: Faults)
    requires Valid(st)
    ensures Valid(Gather(st, names, dryRun, faults).state)
    decreases |names|
  {
    if names != [] {
      var init := names[..|names| - 1];
      GatherKeepsValid(st, init, dryRun, faults);
      var g0 := Gather(st, init, dryRun, faults);
      var name := Trim(names[|names| - 1]);
      if name != "" && name !in g0.state.taxonomy && !dryRun && !faults.insertTerm(name) {
        WithTermKeepsValid(g0.state, name);
      }
    }
  }

  lemma ReconciledKeepsValid(st: State, inc: Incoming, dryRun: bool, faults: Faults)
    requires Valid(st)
    ensures Valid(Reconciled(st, inc, dryRun, faults))
  {
    var t := TermsReconciled(st, inc.slug, inc.categories, dryRun, faults);
    if inc.categories != [] {
      var g := Gather(st, inc.categories, dryRun, faults);
      GatherKeepsValid(st, inc.categories, dryRun, faults);
      if !(g.ids == [] || dryRun || faults.setTerms(inc.slug)) {
        assert (set i | i in g.ids) <= g.state.taxonomy.Values by {
          forall i | i in g.ids
            ensures i in g.state.taxonomy.Values
          {
            var j :| 0 <= j < |g.ids| && g.ids[j] == i;
          }
        }
        WithTermsKeepsValid(g.state, inc.slug, set i | i in g.ids);
      }
    }
    assert Valid(t);
    if !dryRun {
      WithMetaKeepsValid(t, inc.slug, if inc.syncStatus == Some(Unsynced) then Some(Unsynced) else None);
    }
  }

  lemma AppliedKeepsValid(st: State, inc: Incoming, dryRun: bool, faults: Faults)
    requires Valid(st)
    ensures Valid(Applied(st, inc, dryRun, faults))
  {
    match Decide(st, inc, dryRun, faults)
    case Created =>
      var st' := Inserted(st, inc.slug, inc.title, inc.content);
      InsertedKeepsValid(st, inc.slug, inc.title, inc.content);
      ReconciledKeepsValid(st', inc, dryRun, faults);
      assert Applied(st, inc, dryRun, faults) == Reconciled(st', inc, dryRun, faults);
    case Updated =>
      var st' := Edited(st, inc.slug, inc.title, inc.content);
      EditedKeepsValid(st, inc.slug, inc.title, inc.content);
      ReconciledKeepsValid(st', inc, dryRun, faults);
      assert Applied(st, inc, dryRun, faults) == Reconciled(st', inc, dryRun, faults);
    case Unchanged =>
      ReconciledKeepsValid(st, inc, dryRun, faults);
      assert Applied(st, inc, dryRun, faults) == if dryRun then st else Reconciled(st, inc, dryRun, faults);
    case CreateFailed | WouldCreate | UpdateFailed | WouldUpdate =>
      assert Applied(st, inc, dryRun, faults) == st;
  }

  lemma {:induction false} IngestedKeepsValid(st: State, files: seq<Option<RawRecord>>, dryRun: bool, sanitize: string -> string, faults: Faults)
    requires Valid(st)
    ensures Valid(Ingested(st, files, dryRun, sanitize, faults).state)
    decreases |files|
  {
    if files != [] {
      var init := files[..|files| - 1];
      IngestedKeepsValid(st, init, dryRun, sanitize, faults);
      var p := Ingested(st, init, dryRun, sanitize, faults);
      match Validate(files[|files| - 1], sanitize)
      case None =>
      case Some(inc) => AppliedKeepsValid(p.state, inc, dryRun, faults);
    }
  }

  /**
   * A run keeps the store's invariant: post ids and term ids stay distinct
   * and below the next id, and every assigned term exists in the taxonomy.
   */
  lemma ImportKeepsValid(st: State, files: seq<Option<RawRecord>>, dryRun: bool, sanitize: string -> string, faults: Faults)
    requires Valid(st)
    ensures Valid(Imported(st, files, dryRun, sanitize, faults).state)
  {
    IngestedKeepsValid(st, files, dryRun, sanitize, faults);
  }

  lemma AppliedKeepsTwoValuedMeta(st: State, inc: Incoming, dryRun: bool, faults: Faults)
    requires TwoValuedMeta(st)
    ensures TwoValuedMeta(Applied(st, inc, dryRun, faults))
  {
    var r := Applied(st, inc, dryRun, faults);
    if Decide(st, inc, dryRun, faults) == Unchanged && !dryRun {
      assert r == Reconciled(st, inc, dryRun, faults);
    }
  }

  lemma {:induction false} IngestedKeepsTwoValuedMeta(st: State, files: seq<Option<RawRecord>>, dryRun: bool, sanitize: string -> string, faults: Faults)
    requires TwoValuedMeta(st)
    ensures TwoValuedMeta(Ingested(st, files, dryRun, sanitize, faults).state)
    decreases |files|
  {
    if files != [] {
      var init := files[..|files| - 1];
      IngestedKeepsTwoValuedMeta(st, init, dryRun, sanitize, faults);
      var p := Ingested(st, init, dryRun, sanitize, faults);
      match Validate(files[|files| - 1], sanitize)
      case None =>
      case Some(inc) => AppliedKeepsTwoValuedMeta(p.state, inc, dryRun, faults);
    }
  }

  /**
   * The sync-status meta stays two-valued: if every post's
   * `wp_pattern_sync_status` is absent or "unsynced" before the run, so it is
   * after.
   */
  lemma ImportKeepsTwoValuedMeta(st: State, files: seq<Option<RawRecord>>, dryRun: bool, sanitize: string -> string, faults: Faults)
    requires TwoValuedMeta(st)
    ensures TwoValuedMeta(Imported(st, files, dryRun, sanitize, faults).state)
  {
    IngestedKeepsTwoValuedMeta(st, files, dryRun, sanitize, faults);
  }
}
