/** What the export loop leaves in the directory. */
module ExportLaws {
  import opened Wrappers
  import opened Ordering
  import opened PatternStore
  import opened Export

  /** Post `s` is written successfully, and to file `f`. */
  predicate WritesTo(posts: map<string, Entity>, s: string, env: Env, f: string) {
    Attempt(posts, s, env).Some? && Attempt(posts, s, env).value.file == f
  }

  /** A file is in the directory exactly when it was there before or some post was written to it. */
  lemma {:induction false} WrittenDomain(files0: map<string, ExportRecord>, order: seq<string>, posts: map<string, Entity>, env: Env, f: string)
    ensures f in Written(files0, order, posts, env) <==>
      f in files0 || exists k :: 0 <= k < |order| && WritesTo(posts, order[k], env, f)
    decreases |order|
  {
    if order != [] {
      var n := |order| - 1;
      var init := order[..n];
      WrittenDomain(files0, init, posts, env, f);
      assert forall k :: 0 <= k < n ==> init[k] == order[k];
      if !WritesTo(posts, order[n], env, f) && f !in Written(files0, init, posts, env) {
        forall k | 0 <= k < |order|
          ensures !WritesTo(posts, order[k], env, f)
        {
          if k < n {
            assert init[k] == order[k];
          }
        }
      }
    }
  }

  /** A file nobody wrote to keeps its old record. */
  lemma {:induction false} WrittenUntouched(files0: map<string, ExportRecord>, order: seq<string>, posts: map<string, Entity>, env: Env, f: string)
    requires f in files0
    requires forall k :: 0 <= k < |order| ==> !WritesTo(posts, order[k], env, f)
    ensures f in Written(files0, order, posts, env)
    ensures Written(files0, order, posts, env)[f] == files0[f]
    decreases |order|
  {
    if order != [] {
      var n := |order| - 1;
      assert forall k :: 0 <= k < n ==> order[..n][k] == order[k];
      WrittenUntouched(files0, order[..n], posts, env, f);
    }
  }

  /** The last post written to a file decides its record: later writes overwrite earlier ones. */
  lemma {:induction false} WrittenByLast(files0: map<string, ExportRecord>, order: seq<string>, posts: map<string, Entity>, env: Env, f: string, k: nat)
    requires k < |order| && WritesTo(posts, order[k], env, f)
    requires forall j :: k < j < |order| ==> !WritesTo(posts, order[j], env, f)
    ensures f in Written(files0, order, posts, env)
    ensures Written(files0, order, posts, env)[f] == Attempt(posts, order[k], env).value.record
    decreases |order|
  {
    var n := |order| - 1;
    if k < n {
      var init := order[..n];
      assert forall j :: 0 <= j < n ==> init[j] == order[j];
      WrittenByLast(files0, init, posts, env, f, k);
    }
  }

  /** Every record the loop put in the directory is the record of some post written to that file. */
  lemma {:induction false} WrittenFromPost(files0: map<string, ExportRecord>, order: seq<string>, posts: map<string, Entity>, env: Env, f: string)
    requires f in Written(files0, order, posts, env) && f !in files0
    ensures exists k :: 0 <= k < |order| && Attempt(posts, order[k], env) == Some(Write(f, Written(files0, order, posts, env)[f]))
    decreases |order|
  {
    var n := |order| - 1;
    var init := order[..n];
    var w := Written(files0, order, posts, env);
    if Attempt(posts, order[n], env).Some? && Attempt(posts, order[n], env).value.file == f {
      assert Attempt(posts, order[n], env) == Some(Write(f, w[f]));
    } else {
      WrittenFromPost(files0, init, posts, env, f);
      var k :| 0 <= k < |init| && Attempt(posts, init[k], env) == Some(Write(f, Written(files0, init, posts, env)[f]));
      assert init[k] == order[k];
    }
  }

  /**
   * Posts are written in ascending name order, so when several published
   * posts share a file, the one with the greatest name among those written
   * successfully owns it.
   */
  lemma GreatestNameWins(posts: map<string, Entity>, files0: map<string, ExportRecord>, env: Env, t: string, f: string)
    requires t in Published(posts) && WritesTo(posts, t, env, f)
    requires forall u :: u in Published(posts) && Before(t, u) ==> !WritesTo(posts, u, env, f)
    ensures f in Written(files0, NameOrder(Published(posts)), posts, env)
    ensures Written(files0, NameOrder(Published(posts)), posts, env)[f] == Attempt(posts, t, env).value.record
  {
    var q := NameOrder(Published(posts));
    var k :| 0 <= k < |q| && q[k] == t;
    forall j | k < j < |q|
      ensures !WritesTo(posts, q[j], env, f)
    {
      assert Before(q[k], q[j]);
    }
    WrittenByLast(files0, q, posts, env, f, k);
  }

  /** The count is the number of posts, exactly when every post was written. */
  lemma {:induction false} SuccessesBounded(order: seq<string>, posts: map<string, Entity>, env: Env)
    ensures Successes(order, posts, env) <= |order|
    ensures Successes(order, posts, env) == |order| <==> forall k :: 0 <= k < |order| ==> Attempt(posts, order[k], env).Some?
    decreases |order|
  {
    if order != [] {
      var n := |order| - 1;
      var init := order[..n];
      SuccessesBounded(init, posts, env);
      assert Successes(order, posts, env) == Successes(init, posts, env) + if Attempt(posts, order[n], env).Some? then 1 else 0;
      if Successes(order, posts, env) == |order| {
        forall k | 0 <= k < |order|
          ensures Attempt(posts, order[k], env).Some?
        {
          if k < n {
            assert init[k] == order[k];
          }
        }
      }
      if forall k :: 0 <= k < |order| ==> Attempt(posts, order[k], env).Some? {
        forall k | 0 <= k < n
          ensures Attempt(posts, init[k], env).Some?
        {
          assert init[k] == order[k];
        }
      }
    }
  }

  /** The count never exceeds the number of published posts. */
  lemma CountBounded(posts: map<string, Entity>, env: Env)
    ensures Successes(NameOrder(Published(posts)), posts, env) <= |Published(posts)|
  {
    var q := NameOrder(Published(posts));
    SuccessesBounded(q, posts, env);
  }
}
