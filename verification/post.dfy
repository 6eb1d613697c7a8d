/**
 * The post endpoints (app/api/post.py). They mirror the department endpoints,
 * with one difference: the update handler assigns the new name to an attribute
 * `name_otdel` that is not a column of the post table, so the commit writes
 * nothing and the reply, read back from the refreshed row, shows the old name.
 */
module PostApi {
  import opened Wrappers
  import opened Models
  import opened Api
  import opened Tables

  datatype PostResponse = PostResponse(postId: int, namePost: string)

  /** The body of a successful delete. */
  const Deleted: string := "Должность успешно удалена"

  /** True iff some post is already called `name`. */
  predicate NameTaken(s: Store, name: string) {
    exists id | id in s.posts :: s.posts[id].namePost == name
  }

  /** POST /posts/create */
  function CreatePost(s: Store, namePost: string): (o: Outcome<PostResponse>)
    ensures o.reply.Err? <==> NameTaken(s, namePost)
    ensures o.reply.Err? ==> o.store == s && o.reply.error == ServerError(DuplicateName)
    ensures o.reply.Ok? ==>
      var id := o.reply.value.postId;
      && id !in s.posts
      && o.reply.value.namePost == namePost
      && o.store.posts == s.posts[id := Post(namePost)]
      && o.store == s.(posts := o.store.posts)
  {
    if NameTaken(s, namePost) then
      Outcome(s, Err(ServerError(DuplicateName)))
    else
      var id := NextId(s.posts);
      Outcome(s.(posts := s.posts[id := Post(namePost)]), Ok(PostResponse(id, namePost)))
  }

  /** The reply rows of a post listing, one per table row, in the same order. */
  function Responses(rows: seq<(int, Post)>): (rs: seq<PostResponse>)
    ensures |rs| == |rows|
    ensures forall i | 0 <= i < |rows| :: rs[i] == PostResponse(rows[i].0, rows[i].1.namePost)
  {
    if rows == [] then [] else [PostResponse(rows[0].0, rows[0].1.namePost)] + Responses(rows[1..])
  }

  /** GET /posts/all: one (post_id, name_post) pair per post, in ascending id order. */
  function GetAllPosts(s: Store): (o: Outcome<seq<PostResponse>>)
    ensures o.store == s && o.reply.Ok?
    ensures var rs := o.reply.value;
      && |rs| == |s.posts|
      && (forall i | 0 <= i < |rs| :: rs[i].postId in s.posts && s.posts[rs[i].postId].namePost == rs[i].namePost)
      && (forall id | id in s.posts :: exists i | 0 <= i < |rs| :: rs[i].postId == id)
      && (forall i, j | 0 <= i < j < |rs| :: rs[i].postId < rs[j].postId)
  {
    var rows := Rows(s.posts);
    var rs := Responses(rows);
    forall i | 0 <= i < |rs|
      ensures rs[i].postId == rows[i].0 && rs[i].postId in s.posts
      ensures s.posts[rs[i].postId].namePost == rs[i].namePost
    {
    }
    forall id | id in s.posts
      ensures exists i | 0 <= i < |rs| :: rs[i].postId == id
    {
      var i :| 0 <= i < |rows| && rows[i].0 == id;
      assert rs[i].postId == id;
    }
    Outcome(s, Ok(rs))
  }

  /** GET /posts/{post_id} */
  function GetPost(s: Store, postId: int): (o: Outcome<PostResponse>)
    ensures o.store == s
    ensures o.reply.Err? <==> postId !in s.posts
    ensures o.reply.Err? ==> o.reply.error == NotFound
    ensures o.reply.Ok? ==> o.reply.value == PostResponse(postId, s.posts[postId].namePost)
  {
    if postId !in s.posts then Outcome(s, Err(NotFound))
    else Outcome(s, Ok(PostResponse(postId, s.posts[postId].namePost)))
  }

  /**
   * PUT /posts/{post_id} as written: the new name never reaches a column, so the
   * store is unchanged and the reply carries the stored (old) name.
   */
  function UpdatePost(s: Store, postId: int, namePost: string): (o: Outcome<PostResponse>)
    ensures o.store == s
    ensures o.reply.Err? <==> postId !in s.posts
    ensures o.reply.Err? ==> o.reply.error == NotFound
    ensures o.reply.Ok? ==> o.reply.value == PostResponse(postId, s.posts[postId].namePost)
  {
    if postId !in s.posts then Outcome(s, Err(NotFound))
    else Outcome(s, Ok(PostResponse(postId, s.posts[postId].namePost)))
  }

  /** PUT /posts/{post_id} as evidently intended: the new name is written to `name_post`. */
  function UpdatePostIntended(s: Store, postId: int, namePost: string): (o: Outcome<PostResponse>)
    ensures o.reply.Err? <==> postId !in s.posts
    ensures o.reply.Err? ==> o.store == s && o.reply.error == NotFound
    ensures o.reply.Ok? ==>
      && o.reply.value == PostResponse(postId, namePost)
      && o.store.posts == s.posts[postId := Post(namePost)]
      && o.store == s.(posts := o.store.posts)
  {
    if postId !in s.posts then Outcome(s, Err(NotFound))
    else Outcome(s.(posts := s.posts[postId := Post(namePost)]), Ok(PostResponse(postId, namePost)))
  }

  /** DELETE /posts/{post_id}: employees that hold the post are left as they are. */
  function DeletePost(s: Store, postId: int): (o: Outcome<string>)
    ensures o.reply.Err? <==> postId !in s.posts
    ensures o.reply.Err? ==> o.store == s && o.reply.error == NotFound
    ensures o.reply.Ok? ==>
      && o.reply.value == Deleted
      && o.store.posts.Keys == s.posts.Keys - {postId}
      && (forall id | id in o.store.posts :: o.store.posts[id] == s.posts[id])
      && o.store == s.(posts := o.store.posts)
  {
    if postId !in s.posts then Outcome(s, Err(NotFound))
    else Outcome(s.(posts := s.posts - {postId}), Ok(Deleted))
  }

  /** A created post can be read back under the id the reply names. */
  lemma CreateThenGet(s: Store, name: string)
    requires !NameTaken(s, name)
    ensures var o := CreatePost(s, name);
      o.reply.Ok? && GetPost(o.store, o.reply.value.postId).reply == Ok(PostResponse(o.reply.value.postId, name))
  {
  }

  /** Deleting a post just created gives back the store from before. */
  lemma CreateThenDelete(s: Store, name: string)
    requires !NameTaken(s, name)
    ensures var o := CreatePost(s, name);
      o.reply.Ok? && DeletePost(o.store, o.reply.value.postId).store == s
  {
    var o := CreatePost(s, name);
    assert o.store.posts - {o.reply.value.postId} == s.posts;
  }

  /** Creating the same name twice: the second request answers 500 and changes nothing. */
  lemma CreateTwiceFails(s: Store, name: string)
    ensures var s1 := CreatePost(s, name).store;
      CreatePost(s1, name) == Outcome(s1, Err(ServerError(DuplicateName)))
  {
    var o := CreatePost(s, name);
    if o.reply.Ok? {
      assert o.store.posts[o.reply.value.postId].namePost == name;
    }
  }

  /**
   * The update as written is lost: reading the post back after renaming it to a
   * different name still shows the old name.
   */
  lemma UpdateIsLost(s: Store, postId: int, name: string)
    requires postId in s.posts && s.posts[postId].namePost != name
    ensures var s1 := UpdatePost(s, postId, name).store;
      GetPost(s1, postId).reply.value.namePost != name
  {
  }

  /** The intended update is read back by a later get. */
  lemma IntendedUpdateThenGet(s: Store, postId: int, name: string)
    requires postId in s.posts
    ensures var s1 := UpdatePostIntended(s, postId, name).store;
      GetPost(s1, postId).reply == Ok(PostResponse(postId, name))
  {
  }
}
