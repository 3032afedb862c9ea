/**
 * The content store the two commands talk to: the `wp_block` posts, keyed by
 * their slug (`post_name`), and the `wp_pattern_category` taxonomy, a map from
 * term name to term id. A post carries the fields the plugin reads or writes:
 * id, title, content, its category term ids, the `wp_pattern_sync_status`
 * meta value, and whether it is published.
 */
module PatternStore {
  import opened Wrappers

  const Unsynced: string := "unsynced"
  const Synced: string := "synced"

  datatype Entity = Entity(
    id: nat,
    title: string,
    content: string,
    terms: set<nat>,
    syncMeta: Option<string>,
    published: bool)

  datatype State = State(
    posts: map<string, Entity>,
    taxonomy: map<string, nat>,
    nextPostId: nat,
    nextTermId: nat)

  /**
   * Which host calls fail (return a WP_Error): `wp_insert_post` and
   * `wp_update_post` by slug, `wp_insert_term` by term name,
   * `wp_set_object_terms` by slug.
   */
  datatype Faults = Faults(
    insertPost: string -> bool,
    updatePost: string -> bool,
    insertTerm: string -> bool,
    setTerms: string -> bool)

  /**
   * The store's own invariant: post ids and term ids are distinct and below
   * the next id to hand out, and every term assigned to a post exists. The
   * import keeps it (`ImportLaws.ImportKeepsValid`, and `Importer.Import` on
   * the live store).
   */
  ghost predicate Valid(st: State) {
    && (forall s :: s in st.posts ==> st.posts[s].id < st.nextPostId)
    && (forall s, t :: s in st.posts && t in st.posts && s != t ==> st.posts[s].id != st.posts[t].id)
    && (forall n :: n in st.taxonomy ==> st.taxonomy[n] < st.nextTermId)
    && (forall n, m :: n in st.taxonomy && m in st.taxonomy && n != m ==> st.taxonomy[n] != st.taxonomy[m])
    && (forall s :: s in st.posts ==> st.posts[s].terms <= st.taxonomy.Values)
  }

  /** Every post's sync-status meta is absent or "unsynced", the only value the importer writes. */
  ghost predicate TwoValuedMeta(st: State) {
    forall s :: s in st.posts ==> st.posts[s].syncMeta in {None, Some(Unsynced)}
  }

  // State transformers for the successful host calls.

  /** `wp_insert_post` of a published post. */
  function Inserted(st: State, slug: string, title: string, content: string): State {
    st.(posts := st.posts[slug := Entity(st.nextPostId, title, content, {}, None, true)],
        nextPostId := st.nextPostId + 1)
  }

  /** `wp_update_post` with a new title and content and `post_status => publish`. */
  function Edited(st: State, slug: string, title: string, content: string): State {
    if slug in st.posts then
      st.(posts := st.posts[slug := st.posts[slug].(title := title, content := content, published := true)])
    else st
  }

  /** `wp_insert_term` of a new category. */
  function WithTerm(st: State, name: string): State {
    st.(taxonomy := st.taxonomy[name := st.nextTermId], nextTermId := st.nextTermId + 1)
  }

  /** `wp_set_object_terms`: replace the post's category terms. */
  function WithTerms(st: State, slug: string, ids: set<nat>): State {
    if slug in st.posts then st.(posts := st.posts[slug := st.posts[slug].(terms := ids)]) else st
  }

  /** `update_post_meta` / `delete_post_meta` of `wp_pattern_sync_status`. */
  function WithMeta(st: State, slug: string, meta: Option<string>): State {
    if slug in st.posts then st.(posts := st.posts[slug := st.posts[slug].(syncMeta := meta)]) else st
  }

  /** `wp_delete_post($id, true)`: permanent deletion. */
  function Without(st: State, slug: string): State {
    st.(posts := st.posts - {slug})
  }

  class Store {
    var posts: map<string, Entity>
    var taxonomy: map<string, nat>
    var nextPostId: nat
    var nextTermId: nat

    function Snapshot(): State
      reads this
    {
      State(posts, taxonomy, nextPostId, nextTermId)
    }

    constructor (init: State)
      ensures Snapshot() == init
    {
      posts, taxonomy := init.posts, init.taxonomy;
      nextPostId, nextTermId := init.nextPostId, init.nextTermId;
    }

    method InsertPost(slug: string, title: string, content: string, faults: Faults) returns (id: Option<nat>)
      modifies this
      ensures faults.insertPost(slug) ==> id == None && Snapshot() == old(Snapshot())
      ensures !faults.insertPost(slug) ==>
        id == Some(old(nextPostId)) && Snapshot() == Inserted(old(Snapshot()), slug, title, content)
    {
      if faults.insertPost(slug) {
        return None;
      }
      id := Some(nextPostId);
      posts := posts[slug := Entity(nextPostId, title, content, {}, None, true)];
      nextPostId := nextPostId + 1;
    }

    method UpdatePost(slug: string, title: string, content: string, faults: Faults) returns (ok: bool)
      modifies this
      ensures ok == !faults.updatePost(slug)
      ensures Snapshot() == if ok then Edited(old(Snapshot()), slug, title, content) else old(Snapshot())
    {
      ok := !faults.updatePost(slug);
      if ok && slug in posts {
        posts := posts[slug := posts[slug].(title := title, content := content, published := true)];
      }
    }

    method InsertTerm(name: string, faults: Faults) returns (id: Option<nat>)
      modifies this
      ensures faults.insertTerm(name) ==> id == None && Snapshot() == old(Snapshot())
      ensures !faults.insertTerm(name) ==>
        id == Some(old(nextTermId)) && Snapshot() == WithTerm(old(Snapshot()), name)
    {
      if faults.insertTerm(name) {
        return None;
      }
      id := Some(nextTermId);
      taxonomy := taxonomy[name := nextTermId];
      nextTermId := nextTermId + 1;
    }

    method SetObjectTerms(slug: string, ids: seq<nat>, faults: Faults) returns (ok: bool)
      modifies this
      ensures ok == !faults.setTerms(slug)
      ensures Snapshot() == if ok then WithTerms(old(Snapshot()), slug, set i | i in ids) else old(Snapshot())
    {
      ok := !faults.setTerms(slug);
      if ok && slug in posts {
        posts := posts[slug := posts[slug].(terms := set i | i in ids)];
      }
    }

    method UpdatePostMeta(slug: string, value: string)
      modifies this
      ensures Snapshot() == WithMeta(old(Snapshot()), slug, Some(value))
    {
      if slug in posts {
        posts := posts[slug := posts[slug].(syncMeta := Some(value))];
      }
    }

    method DeletePostMeta(slug: string)
      modifies this
      ensures Snapshot() == WithMeta(old(Snapshot()), slug, None)
    {
      if slug in posts {
        posts := posts[slug := posts[slug].(syncMeta := None)];
      }
    }

    method DeletePost(slug: string)
      modifies this
      ensures Snapshot() == Without(old(Snapshot()), slug)
    {
      posts := posts - {slug};
    }
  }
}
