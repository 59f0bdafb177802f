/**
 * The `posts` table of the hosted database, reached through its client
 * library, reduced to a keyed store with the three calls the core makes:
 * insert a row, select a row by id, delete by id. Whether a call fails,
 * throws, and which fresh key an insert receives are decided by the store,
 * so the methods choose them nondeterministically.
 */
module PostStore {
  import opened JsString
  import opened Options

  type PostId = Text

  /** A row as the submission form writes it: the other columns are filled in by the database. */
  datatype Post = Post(title: Text, content: Text, personName: Option<Text>)

  /** The calls made to the store, in order, each select and delete with the answer it got. */
  datatype StoreCall = InsertCall(row: Post) | SelectCall(id: PostId, answer: Selection) | DeleteCall(id: PostId, outcome: Deletion)

  /** The answer of a select by id: a thrown failure, or the row bound by the caller (if any). */
  datatype Selection = SelectThrew | Selected(row: Option<Post>)

  /** The answer of a delete: done, an error returned in the result, or a thrown failure. */
  datatype Deletion = Deleted | DeleteError | DeleteThrew

  /** The longest key length in a finite set of keys. */
  ghost function LongestKey(keys: set<PostId>): (n: nat)
    ensures forall k :: k in keys ==> |k| <= n
    decreases |keys|
  {
    if keys == {} then 0
    else
      var k :| k in keys;
      var rest := LongestKey(keys - {k});
      if |k| > rest then |k| else rest
  }

  /** The store can always hand out a key it has not used. */
  lemma UnusedKeyExists(keys: set<PostId>)
    ensures exists id :: id !in keys
  {
    var id: PostId := seq(LongestKey(keys) + 1, _ => SPACE);
    assert id !in keys;
  }

  class Store {
    var posts: map<PostId, Post>
    ghost var calls: seq<StoreCall>

    constructor ()
      ensures posts == map[] && calls == []
    {
      posts := map[];
      calls := [];
    }

    /** `insert([row])`: one new row under a fresh key, or an error and no change. */
    method Insert(row: Post) returns (failed: bool)
      modifies this
      ensures calls == old(calls) + [InsertCall(row)]
      ensures failed ==> posts == old(posts)
      ensures !failed ==> exists id :: id !in old(posts) && posts == old(posts)[id := row]
    {
      calls := calls + [InsertCall(row)];
      failed :| true;
      if !failed {
        UnusedKeyExists(posts.Keys);
        var id :| id !in posts;
        posts := posts[id := row];
      }
    }

    /**
     * `select(...).eq('id', id).single()`, with the row the caller binds.
     * A bound row is always the stored one; whether the caller's binding
     * receives it at all depends on the client library's result shape.
     */
    method Select(id: PostId) returns (r: Selection)
      modifies this`calls
      ensures calls == old(calls) + [SelectCall(id, r)]
      ensures r.Selected? && r.row.Some? ==> id in posts && r.row.value == posts[id]
      ensures id !in posts ==> r.Selected? ==> r.row.None?
    {
      var threw: bool :| true;
      var bound: bool :| true;
      if threw {
        r := SelectThrew;
      } else if bound && id in posts {
        r := Selected(Some(posts[id]));
      } else {
        r := Selected(None);
      }
      calls := calls + [SelectCall(id, r)];
    }

    /** `delete().eq('id', id)`: removes that one key when it succeeds, nothing otherwise. */
    method Delete(id: PostId) returns (r: Deletion)
      modifies this
      ensures calls == old(calls) + [DeleteCall(id, r)]
      ensures r == Deleted ==> posts == old(posts) - {id}
      ensures r != Deleted ==> posts == old(posts)
    {
      r :| true;
      calls := calls + [DeleteCall(id, r)];
      if r == Deleted {
        posts := posts - {id};
      }
    }
  }

}
