/**
 The backend queries the app issues, stated over an in-memory store that
 holds the records of the Like, Follow and Post classes. The network calls
 are applied synchronously: a write changes the store at once, a query reads
 it at once.
 */
module ParseHelper {
  import opened Wrappers
  import opened Objects

  /** A record of the Like class. `fromUser` is nil once the liking user no
      longer resolves; `toPost` is the object id of the liked post. */
  datatype Like = Like(fromUser: Option<User>, toPost: string)

  /** A record of the Follow class: `fromUser` follows `toUser`. */
  datatype Follow = Follow(fromUser: User, toUser: User)

  /** A record of the Post class: its object id, its owner (`user`, which may
      be nil) and its creation time. */
  datatype PostRecord = PostRecord(objectId: string, user: Option<User>, createdAt: int)

  /** Swift's `Range<Int>`, the half-open interval startIndex ..< endIndex. */
  datatype Range = Range(startIndex: int, endIndex: int)

  function Min(a: int, b: int): (m: int) { if a <= b then a else b }

  function Max(a: int, b: int): (m: int) { if a <= b then b else a }

  // ---------------------------------------------------------------------
  // Likes
  // ---------------------------------------------------------------------

  /** The query of unlikePost: `fromUser` equal to the user and `toPost`
      equal to the post (references to objects compare by object id). */
  predicate IsLikeOf(e: Like, user: User, post: string)
  {
    e.fromUser.Some? && SameObject(e.fromUser.value, user) && e.toPost == post
  }

  /** The records of `edges` pointing to `post`, in store order. */
  function LikesTo(edges: seq<Like>, post: string): (r: seq<Like>)
  {
    if edges == [] then []
    else
      (if edges[0].toPost == post then [edges[0]] else []) + LikesTo(edges[1..], post)
  }

  /** The records of `edges` that the query of unlikePost finds. */
  function LikesOf(edges: seq<Like>, user: User, post: string): (r: seq<Like>)
  {
    if edges == [] then []
    else
      (if IsLikeOf(edges[0], user, post) then [edges[0]] else []) + LikesOf(edges[1..], user, post)
  }

  /** The records of `edges` that survive unlikePost, in store order. */
  function WithoutLikesOf(edges: seq<Like>, user: User, post: string): (r: seq<Like>)
  {
    if edges == [] then []
    else
      (if IsLikeOf(edges[0], user, post) then [] else [edges[0]]) + WithoutLikesOf(edges[1..], user, post)
  }

  /** likesForPost selects exactly the records pointing to the post, each as
      often as it is stored. */
  lemma {:induction false} LikesToSelects(edges: seq<Like>, post: string)
    ensures forall e :: multiset(LikesTo(edges, post))[e] == if e.toPost == post then multiset(edges)[e] else 0
  {
    if edges != [] {
      LikesToSelects(edges[1..], post);
      assert edges == [edges[0]] + edges[1..];
    }
  }

  /** likesForPost keeps store order: the records of a concatenated store
      are those of each part, in turn. */
  lemma {:induction false} LikesToConcat(a: seq<Like>, b: seq<Like>, post: string)
    ensures LikesTo(a + b, post) == LikesTo(a, post) + LikesTo(b, post)
  {
    if a == [] {
      assert a + b == b;
    } else {
      var h := if a[0].toPost == post then [a[0]] else [];
      assert (a + b)[1..] == a[1..] + b;
      assert LikesTo(a + b, post) == h + LikesTo(a[1..] + b, post);
      LikesToConcat(a[1..], b, post);
      assert LikesTo(a, post) == h + LikesTo(a[1..], post);
      assert h + (LikesTo(a[1..], post) + LikesTo(b, post)) == (h + LikesTo(a[1..], post)) + LikesTo(b, post);
    }
  }

  /** The query of unlikePost finds exactly the records of (user, post). */
  lemma {:induction false} LikesOfSelects(edges: seq<Like>, user: User, post: string)
    ensures forall e :: multiset(LikesOf(edges, user, post))[e] == if IsLikeOf(e, user, post) then multiset(edges)[e] else 0
  {
    if edges != [] {
      LikesOfSelects(edges[1..], user, post);
      assert edges == [edges[0]] + edges[1..];
    }
  }

  /** The query of unlikePost keeps store order. */
  lemma {:induction false} LikesOfConcat(a: seq<Like>, b: seq<Like>, user: User, post: string)
    ensures LikesOf(a + b, user, post) == LikesOf(a, user, post) + LikesOf(b, user, post)
  {
    if a == [] {
      assert a + b == b;
    } else {
      var h := if IsLikeOf(a[0], user, post) then [a[0]] else [];
      assert (a + b)[1..] == a[1..] + b;
      assert LikesOf(a + b, user, post) == h + LikesOf(a[1..] + b, user, post);
      LikesOfConcat(a[1..], b, user, post);
      assert LikesOf(a, user, post) == h + LikesOf(a[1..], user, post);
      assert h + (LikesOf(a[1..], user, post) + LikesOf(b, user, post)) == (h + LikesOf(a[1..], user, post)) + LikesOf(b, user, post);
    }
  }

  /** unlikePost removes exactly the records of (user, post) and leaves every
      other record, as often as it was stored. */
  lemma {:induction false} WithoutLikesOfSelects(edges: seq<Like>, user: User, post: string)
    ensures forall e :: multiset(WithoutLikesOf(edges, user, post))[e] == if IsLikeOf(e, user, post) then 0 else multiset(edges)[e]
  {
    if edges != [] {
      WithoutLikesOfSelects(edges[1..], user, post);
      assert edges == [edges[0]] + edges[1..];
    }
  }

  /** The store after deleting every record in `gone`; a record is a value
      here, so deleting it deletes every record equal to it. */
  function Delete(edges: seq<Like>, gone: seq<Like>): (r: seq<Like>)
  {
    if edges == [] then []
    else
      (if edges[0] in gone then [] else [edges[0]]) + Delete(edges[1..], gone)
  }

  lemma {:induction false} DeleteNothing(edges: seq<Like>)
    ensures Delete(edges, []) == edges
  {
    if edges != [] {
      DeleteNothing(edges[1..]);
    }
  }

  lemma {:induction false} DeleteConcat(a: seq<Like>, b: seq<Like>, gone: seq<Like>)
    ensures Delete(a + b, gone) == Delete(a, gone) + Delete(b, gone)
  {
    if a == [] {
      assert a + b == b;
    } else {
      var h := if a[0] in gone then [] else [a[0]];
      assert (a + b)[1..] == a[1..] + b;
      assert Delete(a + b, gone) == h + Delete(a[1..] + b, gone);
      DeleteConcat(a[1..], b, gone);
      assert Delete(a, gone) == h + Delete(a[1..], gone);
      assert h + (Delete(a[1..], gone) + Delete(b, gone)) == (h + Delete(a[1..], gone)) + Delete(b, gone);
    }
  }

  /** Deleting the next found record extends the deleted prefix by one. */
  lemma DeleteNext(edges: seq<Like>, found: seq<Like>, i: nat)
    requires i < |found|
    ensures Delete(Delete(edges, found[..i]), [found[i]]) == Delete(edges, found[..i + 1])
  {
    assert found[..i] + [found[i]] == found[..i + 1];
    DeleteOneMore(edges, found[..i], found[i]);
  }

  lemma {:induction false} DeleteOneMore(edges: seq<Like>, gone: seq<Like>, x: Like)
    ensures Delete(Delete(edges, gone), [x]) == Delete(edges, gone + [x])
  {
    if edges != [] {
      var head: seq<Like> := if edges[0] in gone then [] else [edges[0]];
      assert Delete(edges, gone) == head + Delete(edges[1..], gone);
      DeleteConcat(head, Delete(edges[1..], gone), [x]);
      DeleteOneMore(edges[1..], gone, x);
      assert edges[0] in gone + [x] <==> edges[0] in gone || edges[0] == x;
      if head != [] {
        assert Delete(head, [x]) == (if edges[0] == x then [] else [edges[0]]) + Delete([], [x]);
      }
    }
  }

  lemma {:induction false} DeleteFoundIsWithout(edges: seq<Like>, found: seq<Like>, user: User, post: string)
    requires forall e :: e in edges ==> (e in found <==> IsLikeOf(e, user, post))
    ensures Delete(edges, found) == WithoutLikesOf(edges, user, post)
  {
    if edges != [] {
      assert edges[0] in edges;
      forall e | e in edges[1..] ensures e in found <==> IsLikeOf(e, user, post) {
        assert e in edges;
      }
      DeleteFoundIsWithout(edges[1..], found, user, post);
    }
  }

  /** Deleting every record the query of unlikePost finds leaves exactly
      the records it does not match. */
  lemma DeleteLikesOfIsWithout(edges: seq<Like>, user: User, post: string)
    ensures Delete(edges, LikesOf(edges, user, post)) == WithoutLikesOf(edges, user, post)
  {
    var found := LikesOf(edges, user, post);
    LikesOfSelects(edges, user, post);
    forall e | e in edges ensures e in found <==> IsLikeOf(e, user, post) {
      assert multiset(found)[e] > 0 <==> IsLikeOf(e, user, post);
    }
    DeleteFoundIsWithout(edges, found, user, post);
  }

  /** unlikePost keeps the surviving records in their store order. */
  lemma {:induction false} WithoutLikesOfConcat(a: seq<Like>, b: seq<Like>, user: User, post: string)
    ensures WithoutLikesOf(a + b, user, post) == WithoutLikesOf(a, user, post) + WithoutLikesOf(b, user, post)
  {
    if a == [] {
      assert a + b == b;
    } else {
      var h := if IsLikeOf(a[0], user, post) then [] else [a[0]];
      assert (a + b)[1..] == a[1..] + b;
      assert WithoutLikesOf(a + b, user, post) == h + WithoutLikesOf(a[1..] + b, user, post);
      WithoutLikesOfConcat(a[1..], b, user, post);
      assert WithoutLikesOf(a, user, post) == h + WithoutLikesOf(a[1..], user, post);
      assert h + (WithoutLikesOf(a[1..], user, post) + WithoutLikesOf(b, user, post)) == (h + WithoutLikesOf(a[1..], user, post)) + WithoutLikesOf(b, user, post);
    }
  }

  /** With no matching record, unlikePost leaves the store as it was. */
  lemma {:induction false} WithoutNoMatchIsIdentity(edges: seq<Like>, user: User, post: string)
    requires forall i :: 0 <= i < |edges| ==> !IsLikeOf(edges[i], user, post)
    ensures WithoutLikesOf(edges, user, post) == edges
  {
    if edges != [] {
      assert !IsLikeOf(edges[0], user, post);
      WithoutNoMatchIsIdentity(edges[1..], user, post);
    }
  }

  /** unlikePost twice is unlikePost once. */
  lemma UnlikeIdempotent(edges: seq<Like>, user: User, post: string)
    ensures WithoutLikesOf(WithoutLikesOf(edges, user, post), user, post) == WithoutLikesOf(edges, user, post)
  {
    var once := WithoutLikesOf(edges, user, post);
    WithoutLikesOfSelects(edges, user, post);
    forall i | 0 <= i < |once| ensures !IsLikeOf(once[i], user, post) {
      assert multiset(once)[once[i]] > 0;
    }
    WithoutNoMatchIsIdentity(once, user, post);
  }

  // ---------------------------------------------------------------------
  // Follows and the timeline
  // ---------------------------------------------------------------------

  /** The sub-query of followed users: some Follow record from `viewer`
      points to `owner`. */
  function IsFollowedBy(follows: seq<Follow>, viewer: User, owner: User): (b: bool)
    ensures b <==> exists i :: 0 <= i < |follows| && SameObject(follows[i].fromUser, viewer) && SameObject(follows[i].toUser, owner)
  {
    if follows == [] then false
    else if SameObject(follows[0].fromUser, viewer) && SameObject(follows[0].toUser, owner) then true
    else
      var rest := IsFollowedBy(follows[1..], viewer, owner);
      assert rest ==> exists i :: 0 <= i < |follows| && SameObject(follows[i].fromUser, viewer) && SameObject(follows[i].toUser, owner) by {
        if rest {
          var k :| 0 <= k < |follows| - 1 && SameObject(follows[1..][k].fromUser, viewer) && SameObject(follows[1..][k].toUser, owner);
          assert follows[1..][k] == follows[k + 1];
        }
      }
      rest
  }

  /** The OR of the two sub-queries of the timeline. */
  predicate InTimeline(p: PostRecord, follows: seq<Follow>, viewer: User)
  {
    p.user.Some? && (IsFollowedBy(follows, viewer, p.user.value) || SameObject(p.user.value, viewer))
  }

  /** The posts the OR query matches, in store order. */
  function Visible(posts: seq<PostRecord>, follows: seq<Follow>, viewer: User): (r: seq<PostRecord>)
  {
    if posts == [] then []
    else
      (if InTimeline(posts[0], follows, viewer) then [posts[0]] else []) + Visible(posts[1..], follows, viewer)
  }

  /** The OR query selects exactly the posts of followed users and of the
      viewer, each as often as it is stored. */
  lemma {:induction false} VisibleSelects(posts: seq<PostRecord>, follows: seq<Follow>, viewer: User)
    ensures |Visible(posts, follows, viewer)| <= |posts|
    ensures forall p :: multiset(Visible(posts, follows, viewer))[p] == if InTimeline(p, follows, viewer) then multiset(posts)[p] else 0
  {
    if posts != [] {
      VisibleSelects(posts[1..], follows, viewer);
      assert posts == [posts[0]] + posts[1..];
    }
  }

  /** `orderByDescending(createdAt)`: newer posts first. */
  ghost predicate SortedByCreatedAtDesc(s: seq<PostRecord>)
  {
    forall i, j :: 0 <= i < j < |s| ==> s[i].createdAt >= s[j].createdAt
  }

  /** Insertion of one post into a list sorted newest first. */
  function InsertByCreatedAt(p: PostRecord, s: seq<PostRecord>): (r: seq<PostRecord>)
  {
    if s == [] then [p]
    else if p.createdAt >= s[0].createdAt then [p] + s
    else [s[0]] + InsertByCreatedAt(p, s[1..])
  }

  /** The order `orderByDescending(createdAt)` asks for; among posts with
      equal creation times this particular order is one of those allowed. */
  function SortByCreatedAtDesc(s: seq<PostRecord>): (r: seq<PostRecord>)
  {
    if s == [] then [] else InsertByCreatedAt(s[0], SortByCreatedAtDesc(s[1..]))
  }

  /** Insertion adds the post once and puts it or the old head first. */
  lemma {:induction false} InsertIsPermutation(p: PostRecord, s: seq<PostRecord>)
    ensures var r := InsertByCreatedAt(p, s);
      && multiset(r) == multiset(s) + multiset{p}
      && |r| == |s| + 1 && (r[0] == p || (s != [] && r[0] == s[0]))
  {
    if s != [] && p.createdAt < s[0].createdAt {
      InsertIsPermutation(p, s[1..]);
      assert s == [s[0]] + s[1..];
    }
  }

  lemma {:induction false} InsertKeepsOrder(p: PostRecord, s: seq<PostRecord>)
    requires SortedByCreatedAtDesc(s)
    ensures SortedByCreatedAtDesc(InsertByCreatedAt(p, s))
  {
    if s == [] {
      ConsKeepsOrder(p, s);
    } else if p.createdAt >= s[0].createdAt {
      ConsKeepsOrder(p, s);
    } else {
      var rest := s[1..];
      assert SortedByCreatedAtDesc(rest) by {
        forall i, j | 0 <= i < j < |rest| ensures rest[i].createdAt >= rest[j].createdAt {
          assert rest[i] == s[i + 1] && rest[j] == s[j + 1];
        }
      }
      InsertKeepsOrder(p, rest);
      InsertIsPermutation(p, rest);
      if rest != [] {
        assert s[0].createdAt >= s[1].createdAt;
      }
      ConsKeepsOrder(s[0], InsertByCreatedAt(p, rest));
    }
  }

  /** A post no older than the head of a sorted list may go in front of it. */
  lemma ConsKeepsOrder(x: PostRecord, t: seq<PostRecord>)
    requires SortedByCreatedAtDesc(t)
    requires t != [] ==> x.createdAt >= t[0].createdAt
    ensures SortedByCreatedAtDesc([x] + t)
  {
    var r := [x] + t;
    forall i, j | 0 <= i < j < |r| ensures r[i].createdAt >= r[j].createdAt {
      assert r[j] == t[j - 1];
      if i > 0 {
        assert r[i] == t[i - 1];
      } else if j > 1 {
        assert t[0].createdAt >= t[j - 1].createdAt;
      }
    }
  }

  /** The sort returns its input, reordered newest first. */
  lemma {:induction false} SortIsOrderedPermutation(s: seq<PostRecord>)
    ensures SortedByCreatedAtDesc(SortByCreatedAtDesc(s))
    ensures multiset(SortByCreatedAtDesc(s)) == multiset(s)
  {
    if s != [] {
      SortIsOrderedPermutation(s[1..]);
      InsertKeepsOrder(s[0], SortByCreatedAtDesc(s[1..]));
      InsertIsPermutation(s[0], SortByCreatedAtDesc(s[1..]));
      assert s == [s[0]] + s[1..];
    }
  }

  /** `skip` and `limit` applied to a result list. */
  function Window<T>(s: seq<T>, skip: nat, limit: nat): (r: seq<T>)
    ensures |r| == Min(limit, Max(0, |s| - skip))
    ensures forall i :: 0 <= i < |r| ==> skip + i < |s| && r[i] == s[skip + i]
    ensures forall x :: x in r ==> x in s
  {
    s[Min(skip, |s|)..Min(skip + limit, |s|)]
  }

  lemma WindowKeepsOrder(s: seq<PostRecord>, skip: nat, limit: nat)
    requires SortedByCreatedAtDesc(s)
    ensures SortedByCreatedAtDesc(Window(s, skip, limit))
  {
    var r := Window(s, skip, limit);
    forall i, j | 0 <= i < j < |r| ensures r[i].createdAt >= r[j].createdAt {
      assert r[i] == s[skip + i] && r[j] == s[skip + j];
    }
  }

  /** Two adjacent windows make one. */
  lemma WindowsConcatenate<T>(s: seq<T>, a: nat, b: nat, c: nat)
    requires a <= b <= c
    ensures Window(s, a, b - a) + Window(s, b, c - b) == Window(s, a, c - a)
  {
    var n := |s|;
    assert s[Min(a, n)..Min(c, n)] == s[Min(a, n)..Min(b, n)] + s[Min(b, n)..Min(c, n)];
  }

  /** The whole timeline of `viewer`: the posts of followed users and of
      the viewer, newest first. */
  function Timeline(posts: seq<PostRecord>, follows: seq<Follow>, viewer: User): (r: seq<PostRecord>)
    ensures SortedByCreatedAtDesc(r)
    ensures multiset(r) == multiset(Visible(posts, follows, viewer))
  {
    SortIsOrderedPermutation(Visible(posts, follows, viewer));
    SortByCreatedAtDesc(Visible(posts, follows, viewer))
  }

  lemma TimelineMember(posts: seq<PostRecord>, follows: seq<Follow>, viewer: User, p: PostRecord)
    requires p in Timeline(posts, follows, viewer)
    ensures p in posts && InTimeline(p, follows, viewer)
  {
    assert multiset(Timeline(posts, follows, viewer))[p] > 0;
    VisibleSelects(posts, follows, viewer);
  }

  lemma TimelineWindowMembers(posts: seq<PostRecord>, follows: seq<Follow>, viewer: User, skip: nat, limit: nat)
    ensures forall x :: x in Window(Timeline(posts, follows, viewer), skip, limit) ==> x in posts && InTimeline(x, follows, viewer)
  {
    var all := Timeline(posts, follows, viewer);
    forall x | x in Window(all, skip, limit) ensures x in posts && InTimeline(x, follows, viewer) {
      TimelineMember(posts, follows, viewer, x);
    }
  }

  /** What the app gets for one page: at most `limit` posts, each a post of
      the store that the timeline shows the viewer, newest first. */
  ghost predicate IsTimelinePage(r: seq<PostRecord>, posts: seq<PostRecord>, follows: seq<Follow>, viewer: User, limit: int)
  {
    && |r| <= limit
    && (forall p :: p in r ==> p in posts && InTimeline(p, follows, viewer))
    && SortedByCreatedAtDesc(r)
  }

  /** timelineRequestforCurrentUser: the OR query, newest first, with
      skip = startIndex and limit = endIndex - startIndex. */
  function TimelineRequest(posts: seq<PostRecord>, follows: seq<Follow>, currentUser: User, range: Range): (r: seq<PostRecord>)
    requires 0 <= range.startIndex <= range.endIndex
    ensures IsTimelinePage(r, posts, follows, currentUser, range.endIndex - range.startIndex)
  {
    TimelinePage(posts, follows, currentUser, range.startIndex, range.endIndex - range.startIndex);
    Window(Timeline(posts, follows, currentUser), range.startIndex, range.endIndex - range.startIndex)
  }

  lemma TimelinePage(posts: seq<PostRecord>, follows: seq<Follow>, viewer: User, skip: nat, limit: nat)
    ensures IsTimelinePage(Window(Timeline(posts, follows, viewer), skip, limit), posts, follows, viewer, limit)
  {
    WindowKeepsOrder(Timeline(posts, follows, viewer), skip, limit);
    TimelineWindowMembers(posts, follows, viewer, skip, limit);
  }

  /** skip and limit: the page of range [a, b) holds the posts at positions
      a, a+1, ... of the whole timeline, as many of them as exist below b. */
  lemma TimelineRequestIsSlice(posts: seq<PostRecord>, follows: seq<Follow>, currentUser: User, range: Range)
    requires 0 <= range.startIndex <= range.endIndex
    ensures var r := TimelineRequest(posts, follows, currentUser, range);
      var all := Timeline(posts, follows, currentUser);
      && |r| == Min(range.endIndex - range.startIndex, Max(0, |all| - range.startIndex))
      && forall i :: 0 <= i < |r| ==> range.startIndex + i < |all| && r[i] == all[range.startIndex + i]
  {
  }

  /** Pages of consecutive ranges concatenate to the page of their union. */
  lemma ConsecutivePages(posts: seq<PostRecord>, follows: seq<Follow>, currentUser: User, a: int, b: int, c: int)
    requires 0 <= a <= b <= c
    ensures TimelineRequest(posts, follows, currentUser, Range(a, b)) + TimelineRequest(posts, follows, currentUser, Range(b, c))
         == TimelineRequest(posts, follows, currentUser, Range(a, c))
  {
    WindowsConcatenate(Timeline(posts, follows, currentUser), a, b, c);
  }

  /** No two posts of the list were created at the same time. */
  ghost predicate DistinctTimes(s: seq<PostRecord>)
  {
    forall i, j :: 0 <= i < j < |s| ==> s[i].createdAt != s[j].createdAt
  }

  lemma SortedTail(s: seq<PostRecord>)
    requires s != [] && SortedByCreatedAtDesc(s)
    ensures SortedByCreatedAtDesc(s[1..])
  {
    forall i, j | 0 <= i < j < |s[1..]| ensures s[1..][i].createdAt >= s[1..][j].createdAt {
      assert s[1..][i] == s[i + 1] && s[1..][j] == s[j + 1];
    }
  }

  /** Equal multisets with equal heads have equal tails. */
  lemma MultisetTail(s: seq<PostRecord>, t: seq<PostRecord>)
    requires s != [] && t != [] && s[0] == t[0]
    requires multiset(s) == multiset(t)
    ensures multiset(s[1..]) == multiset(t[1..])
  {
    assert s == [s[0]] + s[1..];
    assert t == [t[0]] + t[1..];
    assert multiset(s) == multiset{s[0]} + multiset(s[1..]);
    assert multiset(t) == multiset{s[0]} + multiset(t[1..]);
    forall x ensures multiset(s[1..])[x] == multiset(t[1..])[x] {
      assert multiset(s)[x] == multiset{s[0]}[x] + multiset(s[1..])[x];
      assert multiset(t)[x] == multiset{s[0]}[x] + multiset(t[1..])[x];
    }
  }

  /** Two orders newest first of the same posts, at distinct times, start
      with the same post. */
  lemma HeadsAgree(s: seq<PostRecord>, t: seq<PostRecord>)
    requires s != [] && SortedByCreatedAtDesc(s) && SortedByCreatedAtDesc(t)
    requires multiset(s) == multiset(t)
    requires DistinctTimes(s)
    ensures t != [] && s[0] == t[0]
  {
    assert s[0] in multiset(t) && t != [];
    assert t[0] in multiset(s);
    var j :| 0 <= j < |t| && t[j] == s[0];
    var i :| 0 <= i < |s| && s[i] == t[0];
    assert t[0].createdAt >= t[j].createdAt;
    assert s[0].createdAt >= s[i].createdAt;
  }

  lemma DistinctTail(s: seq<PostRecord>)
    requires s != [] && DistinctTimes(s)
    ensures DistinctTimes(s[1..])
  {
    forall i, j | 0 <= i < j < |s[1..]| ensures s[1..][i].createdAt != s[1..][j].createdAt {
      assert s[1..][i] == s[i + 1] && s[1..][j] == s[j + 1];
    }
  }

  /** With distinct creation times there is only one order newest first:
      two such orders of the same posts are equal. */
  lemma {:induction false} SortedOrderIsUnique(s: seq<PostRecord>, t: seq<PostRecord>)
    requires SortedByCreatedAtDesc(s) && SortedByCreatedAtDesc(t)
    requires multiset(s) == multiset(t)
    requires DistinctTimes(s)
    ensures s == t
    decreases |s|
  {
    if s == [] {
      assert |t| == |multiset(t)| == 0;
    } else {
      HeadsAgree(s, t);
      MultisetTail(s, t);
      SortedTail(s);
      SortedTail(t);
      DistinctTail(s);
      SortedOrderIsUnique(s[1..], t[1..]);
      assert s == [s[0]] + s[1..] && t == [t[0]] + t[1..];
    }
  }

  /** Two requests may each order posts of equal times their own way; with
      distinct times they cannot, and consecutive pages then concatenate
      whichever allowed order each request used. */
  lemma ConsecutivePagesAnyOrder(posts: seq<PostRecord>, follows: seq<Follow>, viewer: User,
                                 first: seq<PostRecord>, second: seq<PostRecord>, a: nat, b: nat, c: nat)
    requires a <= b <= c
    requires SortedByCreatedAtDesc(first) && multiset(first) == multiset(Visible(posts, follows, viewer))
    requires SortedByCreatedAtDesc(second) && multiset(second) == multiset(Visible(posts, follows, viewer))
    requires DistinctTimes(first)
    ensures Window(first, a, b - a) + Window(second, b, c - b) == Window(first, a, c - a)
  {
    SortedOrderIsUnique(first, second);
    WindowsConcatenate(first, a, b, c);
  }

  /** With equal times the pages of two requests need not fit together: if
      the first request orders x, y, z and the second x, z, y, the pages
      [0, 2) and [2, 3) repeat y and lose z. */
  lemma TiedPagesMayOverlap(x: PostRecord, y: PostRecord, z: PostRecord)
    requires y != z && y.createdAt == z.createdAt < x.createdAt
    ensures SortedByCreatedAtDesc([x, y, z]) && SortedByCreatedAtDesc([x, z, y])
    ensures multiset([x, y, z]) == multiset([x, z, y])
    ensures Window([x, y, z], 0, 2) + Window([x, z, y], 2, 1) == [x, y, y]
    ensures [x, y, y] != [x, y, z]
  {
    assert [x, y, z][0..2] == [x, y];
    assert [x, z, y][2..3] == [y];
    assert [x, y, y][2] != [x, y, z][2];
  }

  /** Every post of an earlier page is at least as new as every post of a
      later page. */
  lemma LaterPagesAreOlder(posts: seq<PostRecord>, follows: seq<Follow>, currentUser: User, a: int, b: int, c: int, d: int)
    requires 0 <= a <= b <= c <= d
    ensures var early := TimelineRequest(posts, follows, currentUser, Range(a, b));
      var late := TimelineRequest(posts, follows, currentUser, Range(c, d));
      forall i, j :: 0 <= i < |early| && 0 <= j < |late| ==> early[i].createdAt >= late[j].createdAt
  {
    var all := Timeline(posts, follows, currentUser);
    var early := TimelineRequest(posts, follows, currentUser, Range(a, b));
    var late := TimelineRequest(posts, follows, currentUser, Range(c, d));
    TimelineRequestIsSlice(posts, follows, currentUser, Range(a, b));
    TimelineRequestIsSlice(posts, follows, currentUser, Range(c, d));
    forall i, j | 0 <= i < |early| && 0 <= j < |late| ensures early[i].createdAt >= late[j].createdAt {
      assert early[i] == all[a + i] && late[j] == all[c + j];
      assert a + i < b;
    }
  }

  /** The posts of `s` created at `time` or later, in list order. */
  function NewerOrEqual(s: seq<PostRecord>, time: int): (r: seq<PostRecord>)
  {
    if s == [] then []
    else (if s[0].createdAt >= time then [s[0]] else []) + NewerOrEqual(s[1..], time)
  }

  lemma {:induction false} NewerOrEqualConcat(a: seq<PostRecord>, b: seq<PostRecord>, time: int)
    ensures NewerOrEqual(a + b, time) == NewerOrEqual(a, time) + NewerOrEqual(b, time)
  {
    if a == [] {
      assert a + b == b;
    } else {
      var h := if a[0].createdAt >= time then [a[0]] else [];
      assert (a + b)[1..] == a[1..] + b;
      assert NewerOrEqual(a + b, time) == h + NewerOrEqual(a[1..] + b, time);
      NewerOrEqualConcat(a[1..], b, time);
      assert NewerOrEqual(a, time) == h + NewerOrEqual(a[1..], time);
      assert h + (NewerOrEqual(a[1..], time) + NewerOrEqual(b, time)) == (h + NewerOrEqual(a[1..], time)) + NewerOrEqual(b, time);
    }
  }

  /** The selection keeps each new enough post, as often as it occurs. */
  lemma {:induction false} NewerOrEqualSelects(s: seq<PostRecord>, time: int)
    ensures forall p :: multiset(NewerOrEqual(s, time))[p] == if p.createdAt >= time then multiset(s)[p] else 0
  {
    if s != [] {
      NewerOrEqualSelects(s[1..], time);
      assert s == [s[0]] + s[1..];
    }
  }

  /** The selection is no longer than its input, keeps all of a list that is
      new enough and none of a list that is too old. */
  lemma {:induction false} NewerOrEqualBounds(s: seq<PostRecord>, time: int)
    ensures |NewerOrEqual(s, time)| <= |s|
    ensures (forall k :: 0 <= k < |s| ==> s[k].createdAt >= time) ==> NewerOrEqual(s, time) == s
    ensures (forall k :: 0 <= k < |s| ==> s[k].createdAt < time) ==> NewerOrEqual(s, time) == []
  {
    if s != [] {
      NewerOrEqualBounds(s[1..], time);
      assert forall k :: 1 <= k < |s| ==> s[1..][k - 1] == s[k];
      assert s == [s[0]] + s[1..];
    }
  }

  /** Equal multisets select equally many posts. */
  lemma NewerOrEqualSameCount(s: seq<PostRecord>, t: seq<PostRecord>, time: int)
    requires multiset(s) == multiset(t)
    ensures |NewerOrEqual(s, time)| == |NewerOrEqual(t, time)|
  {
    NewerOrEqualSelects(s, time);
    NewerOrEqualSelects(t, time);
    assert multiset(NewerOrEqual(s, time)) == multiset(NewerOrEqual(t, time));
    assert |multiset(NewerOrEqual(s, time))| == |NewerOrEqual(s, time)|;
    assert |multiset(NewerOrEqual(t, time))| == |NewerOrEqual(t, time)|;
  }

  /** In a list newest first, positions 0 .. j are all as new as position j. */
  lemma NewerOrEqualFromPrefix(t: seq<PostRecord>, j: nat)
    requires SortedByCreatedAtDesc(t) && j < |t|
    ensures |NewerOrEqual(t, t[j].createdAt)| >= j + 1
  {
    var time := t[j].createdAt;
    var pre := t[..j + 1];
    assert forall k :: 0 <= k < |pre| ==> pre[k] == t[k];
    assert forall k :: 0 <= k < |pre| ==> pre[k].createdAt >= time;
    assert t == pre + t[j + 1..];
    NewerOrEqualConcat(pre, t[j + 1..], time);
    NewerOrEqualBounds(pre, time);
  }

  /** In a list newest first, only positions before an older position i can
      be new enough. */
  lemma NewerOrEqualBeforeOlder(s: seq<PostRecord>, i: nat, time: int)
    requires SortedByCreatedAtDesc(s) && i < |s| && s[i].createdAt < time
    ensures |NewerOrEqual(s, time)| <= i
  {
    var post := s[i..];
    assert forall k :: 0 <= k < |post| ==> post[k] == s[i + k];
    assert forall k :: 0 <= k < |post| ==> post[k].createdAt < time;
    assert s == s[..i] + post;
    NewerOrEqualConcat(s[..i], post, time);
    NewerOrEqualBounds(s[..i], time);
    NewerOrEqualBounds(post, time);
  }

  /** In two newest-first orders of the same posts, a position is at least as
      new in the one as any later position in the other: the k-th creation
      time is the same in every such order, ties or not. */
  lemma SortedTimesAgree(s: seq<PostRecord>, t: seq<PostRecord>, i: nat, j: nat)
    requires SortedByCreatedAtDesc(s) && SortedByCreatedAtDesc(t)
    requires multiset(s) == multiset(t)
    requires i <= j < |t|
    ensures i < |s| && s[i].createdAt >= t[j].createdAt
  {
    assert |s| == |multiset(s)| == |multiset(t)| == |t|;
    NewerOrEqualFromPrefix(t, j);
    NewerOrEqualSameCount(s, t, t[j].createdAt);
    if s[i].createdAt < t[j].createdAt {
      NewerOrEqualBeforeOlder(s, i, t[j].createdAt);
      assert false;
    }
  }

  /** Pages cut from two newest-first orders of the same posts: every post
      of an earlier page is at least as new as every post of a later one. */
  lemma WindowsOfSortedOrders(first: seq<PostRecord>, second: seq<PostRecord>, a: nat, b: nat, c: nat, d: nat)
    requires a <= b <= c <= d
    requires SortedByCreatedAtDesc(first) && SortedByCreatedAtDesc(second)
    requires multiset(first) == multiset(second)
    ensures var early, late := Window(first, a, b - a), Window(second, c, d - c);
      forall i, j :: 0 <= i < |early| && 0 <= j < |late| ==> early[i].createdAt >= late[j].createdAt
  {
    var early, late := Window(first, a, b - a), Window(second, c, d - c);
    assert |early| <= b - a;
    forall i, j | 0 <= i < |early| && 0 <= j < |late| ensures early[i].createdAt >= late[j].createdAt {
      assert c + j < |second| && late[j] == second[c + j];
      SortedTimesAgree(first, second, a + i, c + j);
      assert early[i] == first[a + i];
    }
  }

  /** LaterPagesAreOlder for two requests that may order ties differently:
      each page may come from its own newest-first order of the posts. */
  lemma LaterPagesAreOlderAnyOrder(posts: seq<PostRecord>, follows: seq<Follow>, viewer: User,
                                   first: seq<PostRecord>, second: seq<PostRecord>, a: nat, b: nat, c: nat, d: nat)
    requires a <= b <= c <= d
    requires SortedByCreatedAtDesc(first) && multiset(first) == multiset(Visible(posts, follows, viewer))
    requires SortedByCreatedAtDesc(second) && multiset(second) == multiset(Visible(posts, follows, viewer))
    ensures var early, late := Window(first, a, b - a), Window(second, c, d - c);
      forall i, j :: 0 <= i < |early| && 0 <= j < |late| ==> early[i].createdAt >= late[j].createdAt
  {
    WindowsOfSortedOrders(first, second, a, b, c, d);
  }

  /** A range that starts at 0 and is at least as long as the store returns
      every matching post, each as often as it is stored. */
  lemma WideRangeIsComplete(posts: seq<PostRecord>, follows: seq<Follow>, currentUser: User, range: Range)
    requires range.startIndex == 0 && range.endIndex >= |posts|
    ensures multiset(TimelineRequest(posts, follows, currentUser, range)) == multiset(Visible(posts, follows, currentUser))
  {
    var all := Timeline(posts, follows, currentUser);
    VisibleSelects(posts, follows, currentUser);
    assert |all| == |multiset(all)| == |Visible(posts, follows, currentUser)|;
    assert Window(all, 0, range.endIndex) == all;
  }

  lemma SortAscendingFour(p1: PostRecord, p2: PostRecord, p3: PostRecord, p4: PostRecord)
    requires p1.createdAt < p2.createdAt < p3.createdAt < p4.createdAt
    ensures SortByCreatedAtDesc([p1, p2, p3, p4]) == [p4, p3, p2, p1]
  {
    assert [p1, p2, p3, p4][1..] == [p2, p3, p4] && [p2, p3, p4][1..] == [p3, p4];
    assert [p3, p4][1..] == [p4] && [p4][1..] == [];
    assert SortByCreatedAtDesc([p4]) == InsertByCreatedAt(p4, []) == [p4];
    assert [p4, p3][1..] == [p3] && [p3][1..] == [] && [p3, p2][1..] == [p2] && [p2][1..] == [];
    assert InsertByCreatedAt(p3, [p4]) == [p4] + InsertByCreatedAt(p3, []) == [p4, p3];
    assert SortByCreatedAtDesc([p3, p4]) == [p4, p3];
    assert InsertByCreatedAt(p2, [p3]) == [p3] + [p2];
    assert InsertByCreatedAt(p2, [p4, p3]) == [p4] + InsertByCreatedAt(p2, [p3]) == [p4, p3, p2];
    assert SortByCreatedAtDesc([p2, p3, p4]) == [p4, p3, p2];
    assert InsertByCreatedAt(p1, [p2]) == [p2] + [p1];
    assert InsertByCreatedAt(p1, [p3, p2]) == [p3] + InsertByCreatedAt(p1, [p2]) == [p3, p2, p1];
    assert [p4, p3, p2][1..] == [p3, p2];
    assert InsertByCreatedAt(p1, [p4, p3, p2]) == [p4] + InsertByCreatedAt(p1, [p3, p2]) == [p4, p3, p2, p1];
  }

  /** A viewer v follows a and b and is followed by c. Of posts by a, b, a, v
      and c, the timeline query selects the first four. */
  lemma ScenarioVisible(v: User, a: User, b: User, c: User, p1: PostRecord, p2: PostRecord, p3: PostRecord, p4: PostRecord, p5: PostRecord)
    requires |{v.objectId, a.objectId, b.objectId, c.objectId}| == 4
    requires p1.user == Some(a) && p2.user == Some(b) && p3.user == Some(a) && p4.user == Some(v) && p5.user == Some(c)
    ensures Visible([p1, p2, p3, p4, p5], [Follow(v, a), Follow(v, b), Follow(c, v)], v) == [p1, p2, p3, p4]
  {
    var f := [Follow(v, a), Follow(v, b), Follow(c, v)];
    ScenarioMembership(v, a, b, c, p1, p2, p3, p4, p5);
    var l5 := [p5] + [];
    var l4 := [p4] + l5;
    var l3 := [p3] + l4;
    var l2 := [p2] + l3;
    var l1 := [p1] + l2;
    VisibleCons(p5, [], f, v);
    VisibleCons(p4, l5, f, v);
    VisibleCons(p3, l4, f, v);
    VisibleCons(p2, l3, f, v);
    VisibleCons(p1, l2, f, v);
    assert l1 == [p1, p2, p3, p4, p5];
    assert Visible(l1, f, v) == [p1] + ([p2] + ([p3] + ([p4] + [])));
    assert [p1] + ([p2] + ([p3] + ([p4] + []))) == [p1, p2, p3, p4];
  }

  lemma ScenarioMembership(v: User, a: User, b: User, c: User, p1: PostRecord, p2: PostRecord, p3: PostRecord, p4: PostRecord, p5: PostRecord)
    requires |{v.objectId, a.objectId, b.objectId, c.objectId}| == 4
    requires p1.user == Some(a) && p2.user == Some(b) && p3.user == Some(a) && p4.user == Some(v) && p5.user == Some(c)
    ensures var f := [Follow(v, a), Follow(v, b), Follow(c, v)];
      && InTimeline(p1, f, v) && InTimeline(p2, f, v) && InTimeline(p3, f, v)
      && InTimeline(p4, f, v) && !InTimeline(p5, f, v)
  {
    var f := [Follow(v, a), Follow(v, b), Follow(c, v)];
    assert SameObject(f[0].fromUser, v) && SameObject(f[0].toUser, a);
    assert SameObject(f[1].fromUser, v) && SameObject(f[1].toUser, b);
    assert !IsFollowedBy(f, v, c) by {
      forall i | 0 <= i < |f| ensures !(SameObject(f[i].fromUser, v) && SameObject(f[i].toUser, c)) {
      }
    }
  }

  lemma VisibleCons(p: PostRecord, rest: seq<PostRecord>, follows: seq<Follow>, viewer: User)
    ensures Visible([p] + rest, follows, viewer)
      == (if InTimeline(p, follows, viewer) then [p] else []) + Visible(rest, follows, viewer)
  {
    assert ([p] + rest)[1..] == rest;
  }

  /** In the scenario of ScenarioVisible, with v's post the newest of the
      four: the whole timeline is newest first, and pages of two split it in
      the middle. */
  lemma TimelineScenario(v: User, a: User, b: User, c: User, p1: PostRecord, p2: PostRecord, p3: PostRecord, p4: PostRecord, p5: PostRecord)
    requires |{v.objectId, a.objectId, b.objectId, c.objectId}| == 4
    requires p1.user == Some(a) && p2.user == Some(b) && p3.user == Some(a) && p4.user == Some(v) && p5.user == Some(c)
    requires p1.createdAt == 1 && p2.createdAt == 2 && p3.createdAt == 3 && p4.createdAt == 4 && p5.createdAt == 5
    ensures var posts, follows := [p1, p2, p3, p4, p5], [Follow(v, a), Follow(v, b), Follow(c, v)];
      && TimelineRequest(posts, follows, v, Range(0, 10)) == [p4, p3, p2, p1]
      && TimelineRequest(posts, follows, v, Range(0, 2)) == [p4, p3]
      && TimelineRequest(posts, follows, v, Range(2, 4)) == [p2, p1]
  {
    var posts := [p1, p2, p3, p4, p5];
    var follows := [Follow(v, a), Follow(v, b), Follow(c, v)];
    ScenarioVisible(v, a, b, c, p1, p2, p3, p4, p5);
    SortAscendingFour(p1, p2, p3, p4);
    var all := Timeline(posts, follows, v);
    assert all == [p4, p3, p2, p1];
    PagesOfFour(p4, p3, p2, p1);
    PageIsWindow(posts, follows, v, Range(0, 10));
    PageIsWindow(posts, follows, v, Range(0, 2));
    PageIsWindow(posts, follows, v, Range(2, 4));
  }

  lemma PageIsWindow(posts: seq<PostRecord>, follows: seq<Follow>, currentUser: User, range: Range)
    requires 0 <= range.startIndex <= range.endIndex
    ensures TimelineRequest(posts, follows, currentUser, range)
      == Window(Timeline(posts, follows, currentUser), range.startIndex, range.endIndex - range.startIndex)
  {
  }

  lemma PagesOfFour(q1: PostRecord, q2: PostRecord, q3: PostRecord, q4: PostRecord)
    ensures Window([q1, q2, q3, q4], 0, 10) == [q1, q2, q3, q4]
    ensures Window([q1, q2, q3, q4], 0, 2) == [q1, q2]
    ensures Window([q1, q2, q3, q4], 2, 2) == [q3, q4]
  {
    assert [q1, q2, q3, q4][0..4] == [q1, q2, q3, q4];
    assert [q1, q2, q3, q4][0..2] == [q1, q2];
    assert [q1, q2, q3, q4][2..4] == [q3, q4];
  }

  // ---------------------------------------------------------------------
  // The store
  // ---------------------------------------------------------------------

  class Backend {
    var likes: seq<Like>
    var follows: seq<Follow>
    var posts: seq<PostRecord>

    constructor (likes: seq<Like>, follows: seq<Follow>, posts: seq<PostRecord>)
      ensures this.likes == likes && this.follows == follows && this.posts == posts
    {
      this.likes := likes;
      this.follows := follows;
      this.posts := posts;
    }

    /** likePost: saves one new Like record, without looking for an existing one. */
    method LikePost(user: User, post: string)
      modifies this
      ensures likes == old(likes) + [Like(Some(user), post)]
      ensures follows == old(follows) && posts == old(posts)
    {
      likes := likes + [Like(Some(user), post)];
    }

    /** unlikePost: finds the Like records of (user, post) and deletes each. */
    method UnlikePost(user: User, post: string)
      modifies this
      ensures likes == WithoutLikesOf(old(likes), user, post)
      ensures follows == old(follows) && posts == old(posts)
    {
      var results := LikesOf(likes, user, post);
      var i := 0;
      DeleteNothing(likes);
      while i < |results|
        invariant 0 <= i <= |results|
        invariant likes == Delete(old(likes), results[..i])
        invariant follows == old(follows) && posts == old(posts)
      {
        DeleteNext(old(likes), results, i);
        likes := Delete(likes, [results[i]]);
        i := i + 1;
      }
      assert results[..i] == results;
      DeleteLikesOfIsWithout(old(likes), user, post);
    }

    /** likesForPost: the Like records pointing to `post`. */
    function LikesForPost(post: string): (r: seq<Like>)
      reads this
      ensures forall e :: multiset(r)[e] == if e.toPost == post then multiset(likes)[e] else 0
      ensures forall e :: e in r <==> e in likes && e.toPost == post
    {
      var r := LikesTo(likes, post);
      LikesToSelects(likes, post);
      assert forall e :: e in r <==> multiset(r)[e] > 0;
      r
    }
  }
}
