/**
 * `Patterns_Export::export`: every published pattern, in ascending name
 * order, is projected into a JSON record and written to
 * `<dir>/<sanitized title>.json`. The store is read, never changed: the
 * posts come in by value and the only result is the directory, a map from
 * file name to record.
 */
module Export {
  import opened Wrappers
  import opened PhpStrings
  import opened PatternStore
  import opened Ordering

  /** What `get_the_terms` gives for a post: the names of its term objects, or a non-array (false, WP_Error). */
  datatype TermsResult = NotAnArray | TermNames(names: seq<string>)

  /** The record written per post; these five fields are exactly the keys of the JSON object. */
  datatype ExportRecord = ExportRecord(
    title: string,
    slug: string,
    content: string,
    categories: seq<string>,
    syncStatus: string)

  /**
   * Line 49: the exported slug is `prefix/stem` when the prefix is non-empty
   * in PHP's sense (so neither "" nor "0"), and the bare stem otherwise.
   */
  function ExportedSlug(prefix: string, stem: string): (r: string)
    ensures Falsy(prefix) ==> r == stem
    ensures !Falsy(prefix) ==>
      && |r| == |prefix| + 1 + |stem|
      && r[..|prefix|] == prefix && r[|prefix|] == '/' && r[|prefix| + 1..] == stem
  {
    if !Falsy(prefix) then prefix + "/" + stem else stem
  }

  predicate NoDuplicates(s: seq<string>) {
    forall i, j :: 0 <= i < j < |s| ==> s[i] != s[j]
  }

  /** The position of the first occurrence of `x` in `s`. */
  function FirstIndex(s: seq<string>, x: string): (k: nat)
    requires x in s
    ensures k < |s| && s[k] == x
  {
    if s[0] == x then 0 else 1 + FirstIndex(s[1..], x)
  }

  /** No occurrence of `x` comes before `FirstIndex(s, x)`. */
  lemma {:induction false} FirstIndexIsFirst(s: seq<string>, x: string)
    requires x in s
    ensures forall j :: 0 <= j < FirstIndex(s, x) ==> s[j] != x
  {
    if s[0] != x {
      FirstIndexIsFirst(s[1..], x);
      forall j | 0 <= j < FirstIndex(s, x)
        ensures s[j] != x
      {
        if j > 0 {
          assert s[j] == s[1..][j - 1];
        }
      }
    }
  }

  lemma {:induction false} FirstIndexOfPrefix(s: seq<string>, n: nat, x: string)
    requires n <= |s| && x in s[..n]
    ensures FirstIndex(s, x) == FirstIndex(s[..n], x)
  {
    if s[0] != x {
      assert s[..n][1..] == s[1..][..n - 1];
      FirstIndexOfPrefix(s[1..], n - 1, x);
    }
  }

  /**
   * `array_values(array_unique($cats))` (line 58): every name of `s` exactly
   * once, in the order of first occurrence.
   */
  function Unique(s: seq<string>): (r: seq<string>)
    ensures NoDuplicates(r)
    ensures forall x :: x in r <==> x in s
    ensures forall i, j :: 0 <= i < j < |r| ==> FirstIndex(s, r[i]) < FirstIndex(s, r[j])
    decreases |s|
  {
    if s == [] then []
    else
      var init := s[..|s| - 1];
      var rest := Unique(init);
      var x := s[|s| - 1];
      assert s == init + [x];
      FirstIndicesOfPrefix(s, init, rest);
      if x in rest then rest
      else
        assert FirstIndex(s, x) == |s| - 1;
        rest + [x]
  }

  /** The names of `r`, all from the prefix `t` of `s`, keep their first positions in `s`. */
  lemma FirstIndicesOfPrefix(s: seq<string>, t: seq<string>, r: seq<string>)
    requires |t| < |s| && t == s[..|t|]
    requires forall y :: y in r ==> y in t
    ensures forall y :: y in r ==> y in s && FirstIndex(s, y) == FirstIndex(t, y)
  {
    forall y | y in r
      ensures y in s && FirstIndex(s, y) == FirstIndex(t, y)
    {
      assert y in s[..|t|];
      FirstIndexOfPrefix(s, |t|, y);
    }
  }

  /** Lines 52-59: the categories are the deduplicated term names, and none when the terms are not an array. */
  function Categories(terms: TermsResult): (r: seq<string>)
    ensures terms.NotAnArray? ==> r == []
    ensures terms.TermNames? ==> r == Unique(terms.names)
  {
    match terms
    case NotAnArray => []
    case TermNames(names) => Unique(names)
  }

  /**
   * Line 66: the stored meta value when it is truthy, "synced" otherwise; the
   * result is never falsy.
   */
  function SyncStatusOut(meta: Option<string>): (r: string)
    ensures !Falsy(r)
    ensures meta.Some? && !Falsy(meta.value) ==> r == meta.value
    ensures meta.None? || Falsy(meta.value) ==> r == Synced
  {
    if meta.Some? && !Falsy(meta.value) then meta.value else Synced
  }

  /** Lines 48-67: the record of one post. */
  function Project(e: Entity, terms: TermsResult, prefix: string, sanitize: string -> string): ExportRecord {
    ExportRecord(e.title, ExportedSlug(prefix, sanitize(e.title)), e.content, Categories(terms), SyncStatusOut(e.syncMeta))
  }

  /** Line 75: `rtrim($dir, '/') . '/' . stem . '.json'`; the prefix plays no part. */
  function FileName(dir: string, stem: string): string {
    TrimTrailingSlashes(dir) + "/" + stem + ".json"
  }

  /** Two posts share a file exactly when their sanitized titles are equal. */
  lemma FileNameInjective(dir: string, a: string, b: string)
    ensures FileName(dir, a) == FileName(dir, b) <==> a == b
  {
    var d := TrimTrailingSlashes(dir);
    if FileName(dir, a) == FileName(dir, b) {
      assert |a| == |b|;
      assert a == FileName(dir, a)[|d| + 1..|d| + 1 + |a|];
      assert b == FileName(dir, b)[|d| + 1..|d| + 1 + |b|];
    }
  }

  // ---------------------------------------------------------------------
  // The write loop (lines 36-83)

  /** The export's inputs besides the store: options and the host's answers. */
  datatype Env = Env(
    dir: string,
    prefix: string,
    sanitize: string -> string,
    terms: string -> TermsResult,
    encodes: ExportRecord -> bool,
    writes: string -> bool)

  datatype Write = Write(file: string, record: ExportRecord)

  /** Lines 48-79 for the post named `s`: the file written, or nothing when encoding or writing fails. */
  function Attempt(posts: map<string, Entity>, s: string, env: Env): Option<Write> {
    if s !in posts then None
    else
      var e := posts[s];
      var record := Project(e, env.terms(s), env.prefix, env.sanitize);
      var file := FileName(env.dir, env.sanitize(e.title));
      if !env.encodes(record) || !env.writes(file) then None else Some(Write(file, record))
  }

  /** The directory after the posts of `order` were exported, one after another. */
  function Written(files0: map<string, ExportRecord>, order: seq<string>, posts: map<string, Entity>, env: Env): map<string, ExportRecord>
    decreases |order|
  {
    if order == [] then files0
    else
      var w := Written(files0, order[..|order| - 1], posts, env);
      match Attempt(posts, order[|order| - 1], env)
      case None => w
      case Some(wr) => w[wr.file := wr.record]
  }

  /** How many posts of `order` were written successfully. */
  function Successes(order: seq<string>, posts: map<string, Entity>, env: Env): nat
    decreases |order|
  {
    if order == [] then 0
    else Successes(order[..|order| - 1], posts, env) + if Attempt(posts, order[|order| - 1], env).Some? then 1 else 0
  }

  /** One more post exported, one more step of the fold. */
  lemma WrittenStep(files0: map<string, ExportRecord>, order: seq<string>, k: nat, posts: map<string, Entity>, env: Env)
    requires k < |order|
    ensures Written(files0, order[..k + 1], posts, env) ==
      match Attempt(posts, order[k], env)
      case None => Written(files0, order[..k], posts, env)
      case Some(wr) => Written(files0, order[..k], posts, env)[wr.file := wr.record]
    ensures Successes(order[..k + 1], posts, env) ==
      Successes(order[..k], posts, env) + if Attempt(posts, order[k], env).Some? then 1 else 0
  {
    assert order[..k + 1][..k] == order[..k];
  }

  /** `Attempt` for a post of the store, unfolded once. */
  lemma AttemptCases(posts: map<string, Entity>, s: string, env: Env)
    requires s in posts
    ensures var data := Project(posts[s], env.terms(s), env.prefix, env.sanitize);
      var file := FileName(env.dir, env.sanitize(posts[s].title));
      Attempt(posts, s, env) == if !env.encodes(data) || !env.writes(file) then None else Some(Write(file, data))
  {
  }

  /** The published posts, which the query of lines 36-42 returns. */
  function Published(posts: map<string, Entity>): set<string> {
    set s | s in posts && posts[s].published
  }

  /** The query of lines 36-42: every published post once, in ascending name order. */
  method QueryPublished(posts: map<string, Entity>) returns (q: seq<string>)
    ensures q == NameOrder(Published(posts))
  {
    var pending := Published(posts);
    q := [];
    while pending != {}
      invariant Ascending(q)
      invariant pending <= Published(posts)
      invariant forall x :: x in q ==> x in Published(posts) && x !in pending
      invariant forall x :: x in Published(posts) ==> x in q || x in pending
      invariant forall i, y :: 0 <= i < |q| && y in pending ==> Before(q[i], y)
      decreases pending
    {
      LeastExists(pending);
      var m :| IsLeast(m, pending);
      q := q + [m];
      pending := pending - {m};
    }
    AscendingUnique(q, NameOrder(Published(posts)));
  }

  /** The loop of lines 44-80 over the query's result: write each post in turn. */
  method WriteAll(posts: map<string, Entity>, order: seq<string>, files0: map<string, ExportRecord>, env: Env)
    returns (files: map<string, ExportRecord>, count: nat)
    requires forall i :: 0 <= i < |order| ==> order[i] in posts
    ensures files == Written(files0, order, posts, env)
    ensures count == Successes(order, posts, env)
  {
    files, count := files0, 0;
    for k := 0 to |order|
      invariant files == Written(files0, order[..k], posts, env)
      invariant count == Successes(order[..k], posts, env)
    {
      WrittenStep(files0, order, k, posts, env);
      var slug := order[k];
      AttemptCases(posts, slug, env);
      var post := posts[slug];
      var data := Project(post, env.terms(slug), env.prefix, env.sanitize);
      if !env.encodes(data) {
        continue;
      }
      var file := FileName(env.dir, env.sanitize(post.title));
      if !env.writes(file) {
        continue;
      }
      files := files[file := data];
      count := count + 1;
    }
    assert order[..|order|] == order;
  }

  /**
   * `Patterns_Export::export`: the directory after writing every published
   * post in name order, and the number of successful writes.
   */
  method Export(posts: map<string, Entity>, files0: map<string, ExportRecord>, env: Env)
    returns (files: map<string, ExportRecord>, count: nat)
    ensures files == Written(files0, NameOrder(Published(posts)), posts, env)
    ensures count == Successes(NameOrder(Published(posts)), posts, env)
  {
    var order := QueryPublished(posts);
    assert forall i :: 0 <= i < |order| ==> order[i] in posts by {
      forall i | 0 <= i < |order|
        ensures order[i] in posts
      {
        assert order[i] in Published(posts);
      }
    }
    files, count := WriteAll(posts, order, files0, env);
  }
}
