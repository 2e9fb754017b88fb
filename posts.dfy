/**
 A post as the app holds it: its backend fields, the image downloaded for
 it, and the list of users who like it. The list is optional: nil means the
 likes have not been fetched yet. Images are cached process-wide by file
 name. Backend calls act on a `ParseHelper.Backend` store at once; the
 completion of an asynchronous fetch arrives as a parameter.
 */
module Posts {
  import opened Wrappers
  import opened Objects
  import opened ParseHelper

  /** A decoded image. */
  datatype Image = Image(pixels: seq<bv8>)

  /** A backend file: only its name matters here, the cache key. */
  datatype ImageFile = ImageFile(name: string)

  // ---------------------------------------------------------------------
  // The like list on its own
  // ---------------------------------------------------------------------

  /** The users of the list whose object id differs from that of `u`, in
      list order. */
  function Without(users: seq<User>, u: User): (r: seq<User>)
  {
    if users == [] then []
    else (if SameObject(users[0], u) then [] else [users[0]]) + Without(users[1..], u)
  }

  /** The filter removes every user equal to `u` and keeps every other one. */
  lemma {:induction false} WithoutSelects(users: seq<User>, u: User)
    ensures !Contains(Without(users, u), u)
    ensures forall x :: x in Without(users, u) <==> x in users && !SameObject(x, u)
  {
    if users != [] {
      WithoutSelects(users[1..], u);
      assert users == [users[0]] + users[1..];
      ContainsConcat(if SameObject(users[0], u) then [] else [users[0]], Without(users[1..], u), u);
    }
  }

  /** The filter keeps the relative order of the users it keeps. */
  lemma {:induction false} WithoutConcat(a: seq<User>, b: seq<User>, u: User)
    ensures Without(a + b, u) == Without(a, u) + Without(b, u)
  {
    if a == [] {
      assert a + b == b;
    } else {
      var h := if SameObject(a[0], u) then [] else [a[0]];
      assert (a + b)[1..] == a[1..] + b;
      assert Without(a + b, u) == h + Without(a[1..] + b, u);
      WithoutConcat(a[1..], b, u);
      assert Without(a, u) == h + Without(a[1..], u);
      assert h + (Without(a[1..], u) + Without(b, u)) == (h + Without(a[1..], u)) + Without(b, u);
    }
  }

  /** A list without `u` passes the filter unchanged. */
  lemma {:induction false} WithoutAbsent(users: seq<User>, u: User)
    requires !Contains(users, u)
    ensures Without(users, u) == users
  {
    if users != [] {
      assert users == [users[0]] + users[1..];
      ContainsConcat([users[0]], users[1..], u);
      WithoutAbsent(users[1..], u);
    }
  }

  /** The new like list of toggleLikePost: with the user in the list, the
      filter; with a list lacking the user, the append; with nil, the
      optional-chained append does nothing. */
  function Toggled(likes: Option<seq<User>>, u: User): (r: Option<seq<User>>)
  {
    match likes
    case None => None
    case Some(l) => if Contains(l, u) then Some(Without(l, u)) else Some(l + [u])
  }

  /** Unliking leaves a list with no element equal to the user that keeps
      every other user in its original relative order. */
  lemma ToggleUnlikes(l: seq<User>, u: User)
    requires Contains(l, u)
    ensures var r := Toggled(Some(l), u);
      && r.Some? && !Contains(r.value, u)
      && (forall x :: x in r.value <==> x in l && !SameObject(x, u))
      && (forall a, b :: l == a + b ==> r.value == Without(a, u) + Without(b, u))
  {
    WithoutSelects(l, u);
    forall a, b | l == a + b
      ensures Without(l, u) == Without(a, u) + Without(b, u)
    {
      WithoutConcat(a, b, u);
    }
  }

  /** Liking a fetched list appends the user after the unchanged list. */
  lemma ToggleLikes(l: seq<User>, u: User)
    requires !Contains(l, u)
    ensures var r := Toggled(Some(l), u);
      && r.Some? && |r.value| == |l| + 1
      && r.value[..|l|] == l && r.value[|l|] == u
      && Contains(r.value, u)
  {
    assert (l + [u])[..|l|] == l;
    assert SameObject((l + [u])[|l|], u);
  }

  /** Before the likes are fetched, toggling keeps the list nil. */
  lemma ToggleUnfetched(u: User)
    ensures Toggled(None, u) == None
  {
  }

  /** On a fetched list, toggling flips whether the user likes the post. */
  lemma ToggleFlips(l: seq<User>, u: User)
    ensures var r := Toggled(Some(l), u);
      r.Some? && (Contains(r.value, u) <==> !Contains(l, u))
  {
    if Contains(l, u) {
      WithoutSelects(l, u);
    } else {
      assert SameObject((l + [u])[|l|], u);
    }
  }

  /** Liking and then unliking a fetched list restores it exactly. */
  lemma ToggleTwiceRestores(l: seq<User>, u: User)
    requires !Contains(l, u)
    ensures Toggled(Toggled(Some(l), u), u) == Some(l)
  {
    assert Toggled(Some(l), u) == Some(l + [u]);
    assert SameObject((l + [u])[|l|], u);
    assert Contains(l + [u], u);
    assert Toggled(Some(l + [u]), u) == Some(Without(l + [u], u));
    WithoutConcat(l, [u], u);
    WithoutAbsent(l, u);
    assert [u][1..] == [];
    assert Without([u], u) == [];
    assert l + [] == l;
    assert Without(l + [u], u) == l;
  }

  /** The other order is not a round trip: unliking and then liking moves
      the user to the end of the list. */
  lemma ToggleTwiceFromLikedReorders(u: User, w: User)
    requires !SameObject(u, w)
    ensures Toggled(Toggled(Some([u, w]), u), u) == Some([w, u])
  {
    assert SameObject([u, w][0], u);
    assert Contains([u, w], u);
    assert [u, w][1..] == [w] && [w][1..] == [];
    assert !SameObject(w, u);
    assert Without([w], u) == [w] + Without([], u) == [w];
    assert Without([u, w], u) == [] + Without([w], u);
    assert [] + [w] == [w];
    assert Without([u, w], u) == [w];
    assert Toggled(Some([u, w]), u) == Some([w]);
    assert !Contains([w], u);
    assert [w] + [u] == [w, u];
  }

  // ---------------------------------------------------------------------
  // The like list against the backend
  // ---------------------------------------------------------------------

  /** The completion of fetchLikes: it drops the Like records without a
      user and maps each remaining one to its `fromUser`, in record order. */
  function Likers(records: seq<Like>): (r: seq<User>)
  {
    if records == [] then []
    else
      (if records[0].fromUser.Some? then [records[0].fromUser.value] else []) + Likers(records[1..])
  }

  /** The likers are exactly the users of the records that have one, and
      there are no more of them than records. */
  lemma {:induction false} LikersSelects(records: seq<Like>)
    ensures |Likers(records)| <= |records|
    ensures forall u :: u in Likers(records) <==> exists i :: 0 <= i < |records| && records[i].fromUser == Some(u)
  {
    if records != [] {
      LikersSelects(records[1..]);
      forall u | u in Likers(records)
        ensures exists i :: 0 <= i < |records| && records[i].fromUser == Some(u)
      {
        if records[0].fromUser != Some(u) {
          var k :| 0 <= k < |records| - 1 && records[1..][k].fromUser == Some(u);
          assert records[k + 1].fromUser == Some(u);
        }
      }
      forall u | exists i :: 0 <= i < |records| && records[i].fromUser == Some(u)
        ensures u in Likers(records)
      {
        var i :| 0 <= i < |records| && records[i].fromUser == Some(u);
        if i > 0 {
          assert records[1..][i - 1].fromUser == Some(u);
        }
      }
    }
  }

  /** The likers follow record order. */
  lemma {:induction false} LikersConcat(a: seq<Like>, b: seq<Like>)
    ensures Likers(a + b) == Likers(a) + Likers(b)
  {
    if a == [] {
      assert a + b == b;
    } else {
      var h := if a[0].fromUser.Some? then [a[0].fromUser.value] else [];
      assert (a + b)[1..] == a[1..] + b;
      assert Likers(a + b) == h + Likers(a[1..] + b);
      LikersConcat(a[1..], b);
      assert Likers(a) == h + Likers(a[1..]);
      assert h + (Likers(a[1..]) + Likers(b)) == (h + Likers(a[1..])) + Likers(b);
    }
  }

  lemma OneRecordLiked(e: Like, u: User, post: string)
    ensures Contains(Likers(LikesTo([e], post)), u) <==> IsLikeOf(e, u, post)
  {
    assert [e][1..] == [];
    if e.toPost == post && e.fromUser.Some? {
      assert Likers(LikesTo([e], post)) == [e.fromUser.value];
    }
  }

  /** A fetched list shows the user exactly when the store holds a Like
      record of that user for the post. */
  lemma {:induction false} FetchedLikeIffRecord(edges: seq<Like>, u: User, post: string)
    ensures Contains(Likers(LikesTo(edges, post)), u) <==> exists i :: 0 <= i < |edges| && IsLikeOf(edges[i], u, post)
  {
    if edges != [] {
      var e, rest := edges[0], edges[1..];
      assert edges == [e] + rest;
      FetchedLikeIffRecord(rest, u, post);
      LikesToConcat([e], rest, post);
      LikersConcat(LikesTo([e], post), LikesTo(rest, post));
      ContainsConcat(Likers(LikesTo([e], post)), Likers(LikesTo(rest, post)), u);
      OneRecordLiked(e, u, post);
      if exists i :: 0 <= i < |rest| && IsLikeOf(rest[i], u, post) {
        var i :| 0 <= i < |rest| && IsLikeOf(rest[i], u, post);
        assert IsLikeOf(edges[i + 1], u, post);
      }
      if exists i :: 0 <= i < |edges| && IsLikeOf(edges[i], u, post) {
        var i :| 0 <= i < |edges| && IsLikeOf(edges[i], u, post);
        if i > 0 {
          assert IsLikeOf(rest[i - 1], u, post);
        }
      }
    }
  }

  lemma UnlikeOneRecordMirrored(e: Like, u: User, post: string)
    ensures Without(Likers(LikesTo([e], post)), u)
      == Likers(LikesTo(if IsLikeOf(e, u, post) then [] else [e], post))
  {
    assert [e][1..] == [];
    if !IsLikeOf(e, u, post) && e.toPost == post && e.fromUser.Some? {
      assert Likers(LikesTo([e], post)) == [e.fromUser.value];
      assert Without([e.fromUser.value], u) == [e.fromUser.value];
    }
  }

  /** Filtering the user out of a fetched list gives the list a fetch would
      give after unlikePost. */
  lemma {:induction false} UnlikeMirrored(edges: seq<Like>, u: User, post: string)
    ensures Without(Likers(LikesTo(edges, post)), u) == Likers(LikesTo(WithoutLikesOf(edges, u, post), post))
  {
    if edges != [] {
      var e, rest := edges[0], edges[1..];
      assert edges == [e] + rest;
      var kept := if IsLikeOf(e, u, post) then [] else [e];
      UnlikeMirrored(rest, u, post);
      LikesToConcat([e], rest, post);
      LikersConcat(LikesTo([e], post), LikesTo(rest, post));
      WithoutConcat(Likers(LikesTo([e], post)), Likers(LikesTo(rest, post)), u);
      assert WithoutLikesOf(edges, u, post) == kept + WithoutLikesOf(rest, u, post);
      LikesToConcat(kept, WithoutLikesOf(rest, u, post), post);
      LikersConcat(LikesTo(kept, post), LikesTo(WithoutLikesOf(rest, u, post), post));
      UnlikeOneRecordMirrored(e, u, post);
    }
  }

  /** Appending the user to a fetched list gives the list a fetch would give
      after likePost. */
  lemma LikeMirrored(edges: seq<Like>, u: User, post: string)
    ensures Likers(LikesTo(edges, post)) + [u] == Likers(LikesTo(edges + [Like(Some(u), post)], post))
  {
    var e := Like(Some(u), post);
    LikesToConcat(edges, [e], post);
    assert [e][1..] == [];
    assert LikesTo([e], post) == [e];
    LikersConcat(LikesTo(edges, post), [e]);
    assert Likers([e]) == [u];
  }

  /** Toggling a list that mirrors the store, while the store takes the
      matching like or unlike, leaves a list that still mirrors it. */
  lemma ToggleMirrorsBackend(edges: seq<Like>, u: User, post: string)
    ensures var local := Likers(LikesTo(edges, post));
      var remote := if Contains(local, u) then WithoutLikesOf(edges, u, post) else edges + [Like(Some(u), post)];
      Toggled(Some(local), u) == Some(Likers(LikesTo(remote, post)))
  {
    if Contains(Likers(LikesTo(edges, post)), u) {
      UnlikeMirrored(edges, u, post);
    } else {
      LikeMirrored(edges, u, post);
    }
  }

  /** With the likes not yet fetched, toggling cannot see an existing like
      and issues likePost, leaving the store with two records of one like. */
  lemma UnfetchedToggleMayDuplicate(edges: seq<Like>, u: User, post: string)
    requires exists i :: 0 <= i < |edges| && IsLikeOf(edges[i], u, post)
    ensures Toggled(None, u) == None
    ensures |LikesOf(edges + [Like(Some(u), post)], u, post)| >= 2
  {
    var i :| 0 <= i < |edges| && IsLikeOf(edges[i], u, post);
    var x := Like(Some(u), post);
    LikesOfSelects(edges, u, post);
    assert multiset(LikesOf(edges, u, post))[edges[i]] >= 1;
    assert |LikesOf(edges, u, post)| >= 1;
    LikesOfConcat(edges, [x], u, post);
    assert [x][1..] == [];
    assert LikesOf([x], u, post) == [x];
  }

  // ---------------------------------------------------------------------
  // The image cache and the post
  // ---------------------------------------------------------------------

  /** The static `Post.imageCache`: images by file name. */
  class ImageCache {
    var entries: map<string, Image>

    /** `initialize` creates the cache empty. */
    constructor ()
      ensures entries == map[]
    {
      entries := map[];
    }
  }

  class Post {
    const objectId: string
    var imageFile: Option<ImageFile>
    var user: Option<User>
    var image: Option<Image>
    var likes: Option<seq<User>>

    /** A post as fetched from the backend: nothing downloaded, nothing
        fetched. */
    constructor (objectId: string, imageFile: Option<ImageFile>, user: Option<User>)
      ensures this.objectId == objectId && this.imageFile == imageFile && this.user == user
      ensures image == None && likes == None
    {
      this.objectId := objectId;
      this.imageFile := imageFile;
      this.user := user;
      image := None;
      likes := None;
    }

    /** doesUserLikePost: false while the likes are not fetched, and then
        whether the list holds a user equal to `u`. */
    function DoesUserLikePost(u: User): (b: bool)
      reads this
      ensures b <==> likes.Some? && exists i :: 0 <= i < |likes.value| && SameObject(likes.value[i], u)
    {
      match likes
      case None => false
      case Some(l) => Contains(l, u)
    }

    /** The like list shows exactly the users the store records as liking
        this post. */
    predicate MirrorsBackend(backend: Backend)
      reads this, backend
    {
      likes == Some(Likers(LikesTo(backend.likes, objectId)))
    }

    /** toggleLikePost: unlike if liked, like otherwise, locally and in the
        store. */
    method ToggleLikePost(u: User, backend: Backend)
      modifies this, backend
      ensures likes == Toggled(old(likes), u)
      ensures old(DoesUserLikePost(u)) ==> backend.likes == WithoutLikesOf(old(backend.likes), u, objectId)
      ensures !old(DoesUserLikePost(u)) ==> backend.likes == old(backend.likes) + [Like(Some(u), objectId)]
      ensures backend.follows == old(backend.follows) && backend.posts == old(backend.posts)
      ensures imageFile == old(imageFile) && user == old(user) && image == old(image)
      ensures old(MirrorsBackend(backend)) ==> MirrorsBackend(backend)
    {
      ghost var edges := backend.likes;
      ghost var mirrored := MirrorsBackend(backend);
      if DoesUserLikePost(u) {
        likes := Some(Without(likes.value, u));
        backend.UnlikePost(u, objectId);
      } else {
        if likes.Some? {
          likes := Some(likes.value + [u]);
        }
        backend.LikePost(u, objectId);
      }
      if mirrored {
        ToggleMirrorsBackend(edges, u, objectId);
      }
    }

    /** fetchLikes: once the list is present, nothing happens. Otherwise the
        likes of this post are queried; `answered` says whether the query
        delivered its results (on an error the list stays nil). */
    method FetchLikes(backend: Backend, answered: bool)
      modifies this
      ensures old(likes).Some? ==> likes == old(likes)
      ensures old(likes).None? && answered ==> likes == Some(Likers(backend.LikesForPost(objectId)))
      ensures old(likes).None? && !answered ==> likes == None
      ensures old(likes).None? && answered ==> MirrorsBackend(backend)
      ensures imageFile == old(imageFile) && user == old(user) && image == old(image)
    {
      if likes.Some? {
        return;
      }
      if answered {
        likes := Some(Likers(backend.LikesForPost(objectId)));
      } else {
        likes := None;
      }
    }

    /** downloadImage: the image is first taken from the cache; on a miss the
        file is fetched (`fetched`), and when data arrives (`data`) it becomes
        the image and is cached under the file name. */
    method DownloadImage(cache: ImageCache, data: Option<Image>) returns (fetched: bool)
      requires imageFile.Some?
      modifies this, cache
      ensures imageFile == old(imageFile) && user == old(user) && likes == old(likes)
      ensures var name := imageFile.value.name;
        && (fetched <==> name !in old(cache.entries))
        && (name in old(cache.entries) ==> image == Some(old(cache.entries)[name]) && cache.entries == old(cache.entries))
        && (name !in old(cache.entries) && data.Some? ==> image == data && cache.entries == old(cache.entries)[name := data.value])
        && (name !in old(cache.entries) && data.None? ==> image == None && cache.entries == old(cache.entries))
      ensures forall k :: k in old(cache.entries) ==> k in cache.entries && cache.entries[k] == old(cache.entries)[k]
    {
      var name := imageFile.value.name;
      image := if name in cache.entries then Some(cache.entries[name]) else None;
      fetched := false;
      if image.None? {
        fetched := true;
        if data.Some? {
          image := data;
          cache.entries := cache.entries[name := data.value];
        }
      }
    }
  }
}
