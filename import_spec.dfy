/**
 * The import reconciliation of `Patterns_Import::import` as functions on the
 * store's state: validation of one decoded file, the create / update /
 * unchanged decision, the category and sync-status reconciliation done by the
 * two closures, the fold over all files, and the deletion pass. The methods in
 * module Importer are proved to compute exactly these functions.
 */
module ImportSpec {
  import opened Wrappers
  import opened PhpStrings
  import opened PatternStore

  /**
   * The fields of one decoded JSON file as the importer reads them. `None`
   * stands for a field that is missing or null; `categories` is the list when
   * the field is an array and empty otherwise.
   */
  datatype RawRecord = RawRecord(
    slug: Option<string>,
    title: Option<string>,
    content: Option<string>,
    categories: seq<string>,
    syncStatus: Option<string>)

  /** A record that passed the slug+content check: sanitized slug, the title to write, the rest as read. */
  datatype Incoming = Incoming(
    slug: string,
    title: string,
    content: string,
    categories: seq<string>,
    syncStatus: Option<string>)

  /**
   * Lines 119-134. A file that could not be read or decoded is `None`. The
   * record is accepted exactly when its sanitized slug and its content are
   * present and truthy; the title written is the record's title when it is
   * non-empty and the slug otherwise, so it is never empty.
   */
  function Validate(file: Option<RawRecord>, sanitize: string -> string): (r: Option<Incoming>)
    ensures r.Some? <==>
      && file.Some? && file.value.slug.Some? && !Falsy(sanitize(file.value.slug.value))
      && file.value.content.Some? && !Falsy(file.value.content.value)
    ensures r.Some? ==>
      && r.value.slug == sanitize(file.value.slug.value)
      && r.value.content == file.value.content.value
      && r.value.title != ""
      && (file.value.title.None? || file.value.title.value == "" ==> r.value.title == r.value.slug)
      && (file.value.title.Some? && file.value.title.value != "" ==> r.value.title == file.value.title.value)
      && r.value.categories == file.value.categories
      && r.value.syncStatus == file.value.syncStatus
  {
    match file
    case None => None
    case Some(data) =>
      var slug := if data.slug.Some? then Some(sanitize(data.slug.value)) else None;
      var title := if data.title.Some? then data.title.value else if slug.Some? then slug.value else "";
      if slug.None? || Falsy(slug.value) || data.content.None? || Falsy(data.content.value) then None
      else Some(Incoming(slug.value, if title != "" then title else slug.value, data.content.value, data.categories, data.syncStatus))
  }

  /** The slug a file adds to `seen`, if it is accepted. */
  function AcceptedSlug(file: Option<RawRecord>, sanitize: string -> string): Option<string> {
    match Validate(file, sanitize)
    case None => None
    case Some(inc) => Some(inc.slug)
  }

  // ---------------------------------------------------------------------
  // `$ensure_terms` (lines 43-80)

  /** The term ids collected so far, and the state after the terms created on the way. */
  datatype Gathered = Gathered(state: State, ids: seq<nat>)

  /**
   * A category name that ends up with a term id: non-blank after trimming,
   * and either already a term or creatable (not in dry-run, insert succeeds).
   */
  predicate Resolvable(st: State, name: string, dryRun: bool, faults: Faults) {
    Trim(name) != "" && (Trim(name) in st.taxonomy || (!dryRun && !faults.insertTerm(Trim(name))))
  }

  /** `n` is the trimmed form of some name of `names`. */
  ghost predicate Named(names: seq<string>, n: string) {
    exists k :: 0 <= k < |names| && Trim(names[k]) == n
  }

  /** A name of the list without its last element is a name of the list. */
  lemma NamedExtend(names: seq<string>)
    requires names != []
    ensures forall n :: Named(names[..|names| - 1], n) ==> Named(names, n)
  {
    forall n | Named(names[..|names| - 1], n)
      ensures Named(names, n)
    {
      var k :| 0 <= k < |names| - 1 && Trim(names[..|names| - 1][k]) == n;
      assert names[k] == names[..|names| - 1][k];
    }
  }

  /** `wp_insert_term` of a new name adds just that name, under the next id, and keeps every other term. */
  lemma WithTermExtends(st: State, name: string)
    requires name !in st.taxonomy
    ensures var st' := WithTerm(st, name);
      && st'.posts == st.posts && st'.nextPostId == st.nextPostId && st'.nextTermId == st.nextTermId + 1
      && st'.taxonomy.Keys == st.taxonomy.Keys + {name} && st'.taxonomy[name] == st.nextTermId
      && (forall n :: n in st.taxonomy ==> st'.taxonomy[n] == st.taxonomy[n])
      && (forall v :: v in st.taxonomy.Values ==> v in st'.taxonomy.Values)
  {
    var st' := WithTerm(st, name);
    forall v | v in st.taxonomy.Values
      ensures v in st'.taxonomy.Values
    {
      var n :| n in st.taxonomy && st.taxonomy[n] == v;
      assert st'.taxonomy[n] == v;
    }
  }

  /**
   * The loop of lines 48-68 over `names`. It touches only the taxonomy, keeps
   * every existing term, creates nothing in dry-run, and every id it collects
   * belongs to a term.
   */
  function Gather(st: State, names: seq<string>, dryRun: bool, faults: Faults): (g: Gathered)
    ensures g.state.posts == st.posts && g.state.nextPostId == st.nextPostId
    ensures forall n :: n in st.taxonomy ==> n in g.state.taxonomy && g.state.taxonomy[n] == st.taxonomy[n]
    ensures forall n :: n in g.state.taxonomy && n !in st.taxonomy ==>
      st.nextTermId <= g.state.taxonomy[n] < g.state.nextTermId && !dryRun && !faults.insertTerm(n)
    ensures st.nextTermId <= g.state.nextTermId
    ensures dryRun ==> g.state == st
    ensures forall k :: 0 <= k < |g.ids| ==> g.ids[k] in g.state.taxonomy.Values
    decreases |names|
  {
    if names == [] then Gathered(st, [])
    else
      var g := Gather(st, names[..|names| - 1], dryRun, faults);
      var name := Trim(names[|names| - 1]);
      if name == "" then g
      else if name in g.state.taxonomy then Gathered(g.state, g.ids + [g.state.taxonomy[name]])
      else if dryRun || faults.insertTerm(name) then g
      else
        var st' := WithTerm(g.state, name);
        WithTermExtends(g.state, name);
        Gathered(st', g.ids + [g.state.nextTermId])
  }

  /**
   * The whole closure: nothing for an empty list; otherwise the collected ids
   * replace the post's terms when there are any, outside dry-run, and when
   * `wp_set_object_terms` succeeds. Only the post's term set may change.
   */
  function TermsReconciled(st: State, slug: string, cats: seq<string>, dryRun: bool, faults: Faults): (r: State)
    ensures cats == [] ==> r == st
    ensures dryRun ==> r == st
    ensures r.posts.Keys == st.posts.Keys && r.nextPostId == st.nextPostId
    ensures forall s :: s in st.posts && s != slug ==> r.posts[s] == st.posts[s]
    ensures slug in st.posts ==> r.posts[slug] == st.posts[slug].(terms := r.posts[slug].terms)
    ensures forall n :: n in st.taxonomy ==> n in r.taxonomy && r.taxonomy[n] == st.taxonomy[n]
    ensures faults.setTerms(slug) ==> r.posts == st.posts
  {
    if cats == [] then st
    else
      var g := Gather(st, cats, dryRun, faults);
      if g.ids == [] || dryRun || faults.setTerms(slug) then g.state
      else WithTerms(g.state, slug, set i | i in g.ids)
  }

  /** Line 59: the only names the term loop adds to the taxonomy are trimmed names of the list. */
  lemma {:induction false} GatherNamesOnly(st: State, names: seq<string>, dryRun: bool, faults: Faults)
    ensures var g := Gather(st, names, dryRun, faults);
      forall n :: n in g.state.taxonomy && n !in st.taxonomy ==> Named(names, n)
    decreases |names|
  {
    if names != [] {
      var init := names[..|names| - 1];
      GatherNamesOnly(st, init, dryRun, faults);
      NamedExtend(names);
      var g0 := Gather(st, init, dryRun, faults);
      var name := Trim(names[|names| - 1]);
      assert Named(names, name);
      var g := Gather(st, names, dryRun, faults);
      if name == "" || name in g0.state.taxonomy || dryRun || faults.insertTerm(name) {
        assert g.state == g0.state;
      } else {
        assert g.state == WithTerm(g0.state, name);
      }
    }
  }

  /** The closure adds to the taxonomy only trimmed names of the post's categories. */
  lemma TermsReconciledNamesOnly(st: State, slug: string, cats: seq<string>, dryRun: bool, faults: Faults)
    ensures var r := TermsReconciled(st, slug, cats, dryRun, faults);
      forall n :: n in r.taxonomy && n !in st.taxonomy ==> Named(cats, n)
  {
    GatherNamesOnly(st, cats, dryRun, faults);
  }

  // ---------------------------------------------------------------------
  // `$apply_sync_status` (lines 82-99)

  /** Line 83: the incoming status collapses to "unsynced" or "synced". */
  function Normalized(status: Option<string>): (r: string)
    ensures r == Unsynced <==> status == Some(Unsynced)
    ensures r == Unsynced || r == Synced
  {
    if status == Some(Unsynced) then Unsynced else Synced
  }

  /**
   * "unsynced" stores the meta value "unsynced"; any other status, or none,
   * deletes the meta key. Dry-run changes nothing, and nothing but the one
   * post's meta changes.
   */
  function StatusApplied(st: State, slug: string, status: Option<string>, dryRun: bool): (r: State)
    ensures dryRun || slug !in st.posts ==> r == st
    ensures !dryRun && slug in st.posts ==>
      r == st.(posts := st.posts[slug := st.posts[slug].(syncMeta := if status == Some(Unsynced) then Some(Unsynced) else None)])
  {
    if Normalized(status) == Unsynced then
      if dryRun then st else WithMeta(st, slug, Some(Unsynced))
    else
      if dryRun then st else WithMeta(st, slug, None)
  }

  /** Both closures applied to one post, terms first. */
  function Reconciled(st: State, inc: Incoming, dryRun: bool, faults: Faults): (r: State)
    ensures dryRun ==> r == st
    ensures r.posts.Keys == st.posts.Keys && r.nextPostId == st.nextPostId
    ensures forall s :: s in st.posts && s != inc.slug ==> r.posts[s] == st.posts[s]
    ensures inc.slug in st.posts ==>
      r.posts[inc.slug] == st.posts[inc.slug].(terms := r.posts[inc.slug].terms, syncMeta := r.posts[inc.slug].syncMeta)
    ensures !dryRun && inc.slug in st.posts ==>
      r.posts[inc.slug].syncMeta == if inc.syncStatus == Some(Unsynced) then Some(Unsynced) else None
    ensures forall n :: n in st.taxonomy ==> n in r.taxonomy && r.taxonomy[n] == st.taxonomy[n]
  {
    StatusApplied(TermsReconciled(st, inc.slug, inc.categories, dryRun, faults), inc.slug, inc.syncStatus, dryRun)
  }

  // ---------------------------------------------------------------------
  // One accepted record (lines 137-185)

  /** What happened to one file; the `Would...` outcomes are dry-run's log lines. */
  datatype Decision =
    | Created | CreateFailed | WouldCreate
    | Updated | UpdateFailed | WouldUpdate
    | Unchanged

  /**
   * Lines 146-185: an existing post whose content or title differs is updated,
   * one equal in both is unchanged, a missing one is created; dry-run and a
   * failing host call each have their own outcome.
   */
  function Decide(st: State, inc: Incoming, dryRun: bool, faults: Faults): (d: Decision)
    ensures d == Unchanged <==>
      inc.slug in st.posts && st.posts[inc.slug].content == inc.content && st.posts[inc.slug].title == inc.title
    ensures d in {Updated, UpdateFailed, WouldUpdate} <==>
      inc.slug in st.posts && (st.posts[inc.slug].content != inc.content || st.posts[inc.slug].title != inc.title)
    ensures d in {Created, CreateFailed, WouldCreate} <==> inc.slug !in st.posts
    ensures d in {Created, Updated} ==> !dryRun
    ensures d in {WouldCreate, WouldUpdate} <==> dryRun && d != Unchanged
    ensures !dryRun && inc.slug !in st.posts ==> (d == CreateFailed <==> faults.insertPost(inc.slug))
    ensures !dryRun && d in {Updated, UpdateFailed, WouldUpdate} ==> (d == UpdateFailed <==> faults.updatePost(inc.slug))
  {
    if inc.slug in st.posts then
      var existing := st.posts[inc.slug];
      if existing.content != inc.content || existing.title != inc.title then
        if dryRun then WouldUpdate
        else if faults.updatePost(inc.slug) then UpdateFailed
        else Updated
      else Unchanged
    else if dryRun then WouldCreate
    else if faults.insertPost(inc.slug) then CreateFailed
    else Created
  }

  /**
   * The store after one accepted record. A created or updated post carries
   * the incoming title and content, is published and has its terms and
   * status reconciled; an unchanged post keeps its title and content (its
   * terms and status are reconciled outside dry-run); every other outcome
   * leaves the store as it was. Posts with other slugs are never touched.
   */
  function Applied(st: State, inc: Incoming, dryRun: bool, faults: Faults): (r: State)
    ensures var d := Decide(st, inc, dryRun, faults);
      && (d == Created ==> r.posts.Keys == st.posts.Keys + {inc.slug} && r.nextPostId == st.nextPostId + 1
                           && r.posts[inc.slug].id == st.nextPostId)
      && (d != Created ==> r.posts.Keys == st.posts.Keys && r.nextPostId == st.nextPostId)
      && (d in {Created, Updated} ==>
            && r.posts[inc.slug].title == inc.title && r.posts[inc.slug].content == inc.content
            && r.posts[inc.slug].published
            && r.posts[inc.slug].syncMeta == if inc.syncStatus == Some(Unsynced) then Some(Unsynced) else None)
      && (d == Updated ==> r.posts[inc.slug].id == st.posts[inc.slug].id)
      && (d == Unchanged ==> r.posts[inc.slug] == st.posts[inc.slug].(terms := r.posts[inc.slug].terms, syncMeta := r.posts[inc.slug].syncMeta))
      && (d in {CreateFailed, WouldCreate, UpdateFailed, WouldUpdate} || (d == Unchanged && dryRun) ==> r == st)
    ensures var d := Decide(st, inc, dryRun, faults);
      d in {Created, Updated} || (d == Unchanged && !dryRun) ==>
        r.posts[inc.slug].syncMeta == if inc.syncStatus == Some(Unsynced) then Some(Unsynced) else None
    ensures var d := Decide(st, inc, dryRun, faults);
      && (d == Created ==> r == Reconciled(Inserted(st, inc.slug, inc.title, inc.content), inc, dryRun, faults))
      && (d == Updated ==> r == Reconciled(Edited(st, inc.slug, inc.title, inc.content), inc, dryRun, faults))
      && (d == Unchanged && !dryRun ==> r == Reconciled(st, inc, dryRun, faults))
    ensures forall s :: s in st.posts && s != inc.slug ==> r.posts[s] == st.posts[s]
    ensures forall n :: n in st.taxonomy ==> n in r.taxonomy && r.taxonomy[n] == st.taxonomy[n]
  {
    match Decide(st, inc, dryRun, faults)
    case Created => Reconciled(Inserted(st, inc.slug, inc.title, inc.content), inc, dryRun, faults)
    case Updated => Reconciled(Edited(st, inc.slug, inc.title, inc.content), inc, dryRun, faults)
    case Unchanged => if dryRun then st else Reconciled(st, inc, dryRun, faults)
    case _ => st
  }

  // ---------------------------------------------------------------------
  // The file loop (lines 108-186) and the deletion pass (lines 188-204)

  datatype Tally = Tally(created: nat, updated: nat, unaltered: nat)

  /**
   * Lines 159, 165, 181: an outcome bumps at most one counter, by one, and a
   * failed or would-be (dry-run) outcome bumps none.
   */
  function Counted(t: Tally, d: Decision): (r: Tally)
    ensures r.created >= t.created && r.updated >= t.updated && r.unaltered >= t.unaltered
    ensures r.created + r.updated + r.unaltered <= t.created + t.updated + t.unaltered + 1
    ensures d !in {Created, Decision.Updated, Unchanged} ==> r == t
    ensures r.created > t.created <==> d == Created
    ensures r.updated > t.updated <==> d == Decision.Updated
    ensures r.unaltered > t.unaltered <==> d == Unchanged
  {
    match d
    case Created => t.(created := t.created + 1)
    case Updated => t.(updated := t.updated + 1)
    case Unchanged => t.(unaltered := t.unaltered + 1)
    case _ => t
  }

  datatype Progress = Progress(state: State, tally: Tally)

  /** The state and counters after the loop has processed `files` in order. */
  function Ingested(st: State, files: seq<Option<RawRecord>>, dryRun: bool, sanitize: string -> string, faults: Faults): (p: Progress)
    decreases |files|
  {
    if files == [] then Progress(st, Tally(0, 0, 0))
    else
      var p := Ingested(st, files[..|files| - 1], dryRun, sanitize, faults);
      match Validate(files[|files| - 1], sanitize)
      case None => p
      case Some(inc) =>
        Progress(Applied(p.state, inc, dryRun, faults), Counted(p.tally, Decide(p.state, inc, dryRun, faults)))
  }

  /** The `seen` list after the loop: the slug of every accepted file, in order, whatever its outcome. */
  function Seen(files: seq<Option<RawRecord>>, sanitize: string -> string): (seen: seq<string>)
    decreases |files|
  {
    if files == [] then []
    else
      Seen(files[..|files| - 1], sanitize) +
        match AcceptedSlug(files[|files| - 1], sanitize)
        case None => []
        case Some(slug) => [slug]
  }

  /** Lines 194-204 outside dry-run: keep exactly the posts whose slug was seen. */
  function Purged(st: State, seen: seq<string>): State {
    st.(posts := map s | s in st.posts && s in seen :: st.posts[s])
  }

  /** The command's result: none when there is nothing to import, else the counters and the slugs reported deleted. */
  datatype Summary =
    | NothingToImport
    | Done(created: nat, updated: nat, unaltered: nat, deleted: set<string>)

  datatype Outcome = Outcome(state: State, summary: Summary)

  /** The whole command, from the list of JSON files found in the directory. */
  function Imported(st: State, files: seq<Option<RawRecord>>, dryRun: bool, sanitize: string -> string, faults: Faults): Outcome {
    if files == [] then Outcome(st, NothingToImport)
    else
      var p := Ingested(st, files, dryRun, sanitize, faults);
      var seen := Seen(files, sanitize);
      var missing := set s | s in p.state.posts && s !in seen;
      Outcome(
        if dryRun then p.state else Purged(p.state, seen),
        Done(p.tally.created, p.tally.updated, p.tally.unaltered, missing))
  }
}
