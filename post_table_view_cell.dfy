/**
 What a timeline cell shows about the likes of its post: a comma-separated
 list of usernames, whether the heart button is selected, and whether the
 small heart icon is hidden. The reactive binding that reruns it when the
 like list changes is not modelled; its outcome is the function LikeBond.
 */
module PostTableViewCell {
  import opened Wrappers
  import opened Objects
  import opened Posts

  /** The username of each user, in list order. */
  function Usernames(userList: seq<User>): (names: seq<string>)
    ensures |names| == |userList|
    ensures forall i :: 0 <= i < |userList| ==> names[i] == userList[i].username
  {
    seq(|userList|, i requires 0 <= i < |userList| => userList[i].username)
  }

  /** The summed length of some strings. */
  function TotalLength(parts: seq<string>): (n: nat)
  {
    if parts == [] then 0 else |parts[0]| + TotalLength(parts[1..])
  }

  /** The parts in order, with a comma and a space between neighbours. */
  function Join(parts: seq<string>): (r: string)
    ensures |parts| == 0 ==> r == ""
    ensures |parts| == 1 ==> r == parts[0]
    ensures |parts| >= 1 ==> |r| == TotalLength(parts) + 2 * (|parts| - 1)
  {
    if |parts| == 0 then ""
    else if |parts| == 1 then parts[0]
    else
      var rest := Join(parts[1..]);
      assert TotalLength(parts) == |parts[0]| + TotalLength(parts[1..]);
      parts[0] + ", " + rest
  }

  /** Joining one more part appends a separator and that part. */
  lemma {:induction false} JoinAppend(parts: seq<string>, x: string)
    requires |parts| >= 1
    ensures Join(parts + [x]) == Join(parts) + ", " + x
  {
    if |parts| == 1 {
      assert (parts + [x])[1..] == [x];
    } else {
      assert (parts + [x])[1..] == parts[1..] + [x];
      JoinAppend(parts[1..], x);
      assert Join(parts + [x]) == parts[0] + ", " + (Join(parts[1..]) + ", " + x);
    }
  }

  /** stringFromUserList: the usernames, in list order, joined by ", ". */
  function StringFromUserList(userList: seq<User>): (r: string)
    ensures |userList| == 0 ==> r == ""
    ensures |userList| == 1 ==> r == userList[0].username
    ensures |userList| >= 1 ==> |r| == TotalLength(Usernames(userList)) + 2 * (|userList| - 1)
  {
    Join(Usernames(userList))
  }

  /** One more like puts ", " and the new username after the old text. */
  lemma LabelAppend(userList: seq<User>, u: User)
    requires |userList| >= 1
    ensures StringFromUserList(userList + [u]) == StringFromUserList(userList) + ", " + u.username
  {
    assert Usernames(userList + [u]) == Usernames(userList) + [u.username];
    JoinAppend(Usernames(userList), u.username);
  }

  // ---------------------------------------------------------------------
  // Reading the list back
  // ---------------------------------------------------------------------

  predicate CommaFree(name: string)
  {
    forall k :: 0 <= k < |name| ==> name[k] != ','
  }

  /** The position of the first comma, or the length when there is none. */
  function CommaIndex(s: string): (i: nat)
    ensures i <= |s|
    ensures forall k :: 0 <= k < i ==> s[k] != ','
    ensures i < |s| ==> s[i] == ','
  {
    if s == [] then 0
    else if s[0] == ',' then 0
    else
      var j := CommaIndex(s[1..]);
      assert forall k :: 1 <= k < j + 1 ==> s[k] == s[1..][k - 1];
      1 + j
  }

  /** Cuts a label at each ", " back into names. */
  function Split(s: string): (parts: seq<string>)
    ensures |parts| >= 1
    decreases |s|
  {
    var i := CommaIndex(s);
    if i == |s| then [s]
    else [s[..i]] + Split(if i + 2 <= |s| then s[i + 2..] else [])
  }

  lemma FirstCommaAfterName(x: string, rest: string)
    requires CommaFree(x)
    ensures CommaIndex(x + ", " + rest) == |x|
  {
    var s := x + ", " + rest;
    assert forall k :: 0 <= k < |x| ==> s[k] == x[k];
    assert s[|x|] == ',';
  }

  /** Splitting undoes joining, for at least one name and no comma in any
      of them. */
  lemma {:induction false} SplitJoin(parts: seq<string>)
    requires |parts| >= 1
    requires forall i :: 0 <= i < |parts| ==> CommaFree(parts[i])
    ensures Split(Join(parts)) == parts
  {
    if |parts| == 1 {
      assert CommaIndex(parts[0]) == |parts[0]|;
    } else {
      var x, rest := parts[0], Join(parts[1..]);
      var s := x + ", " + rest;
      FirstCommaAfterName(x, rest);
      assert s[..|x|] == x;
      assert s[|x| + 2..] == rest;
      SplitJoin(parts[1..]);
      assert parts == [x] + parts[1..];
    }
  }

  /** The label of a non-empty list whose usernames have no comma reads back
      as those usernames. */
  lemma LabelReadsBack(userList: seq<User>)
    requires |userList| >= 1
    requires forall i :: 0 <= i < |userList| ==> CommaFree(userList[i].username)
    ensures Split(StringFromUserList(userList)) == Usernames(userList)
  {
    SplitJoin(Usernames(userList));
  }

  /** Without the comma-free condition the label is ambiguous: the empty list
      and a single user with an empty name show the same text. */
  lemma EmptyListLooksLikeEmptyName(u: User)
    requires u.username == ""
    ensures StringFromUserList([]) == StringFromUserList([u])
  {
  }

  // ---------------------------------------------------------------------
  // likeBond
  // ---------------------------------------------------------------------

  /** The outlets the binding sets: the label text, the heart button's
      selected state and the small heart icon's hidden state. */
  datatype LikeDisplay = LikeDisplay(likesLabelText: string, likesButtonSelected: bool, likesIconHidden: bool)

  /** The closure of likeBond, for the like list it receives and the current
      user. */
  function LikeBond(likeList: Option<seq<User>>, currentUser: User): (d: LikeDisplay)
    ensures likeList.None? ==> d == LikeDisplay("", false, true)
    ensures likeList.Some? ==> d.likesLabelText == StringFromUserList(likeList.value)
    ensures likeList.Some? ==> (d.likesButtonSelected <==> exists i :: 0 <= i < |likeList.value| && SameObject(likeList.value[i], currentUser))
    ensures likeList.Some? ==> (d.likesIconHidden <==> |likeList.value| == 0)
  {
    match likeList
    case Some(l) => LikeDisplay(StringFromUserList(l), Contains(l, currentUser), |l| == 0)
    case None => LikeDisplay("", false, true)
  }

  /** The heart is red exactly when the post says the current user likes it. */
  lemma ButtonShowsLike(post: Post, currentUser: User)
    ensures LikeBond(post.likes, currentUser).likesButtonSelected == post.DoesUserLikePost(currentUser)
  {
  }

  /** Tapping the heart on a fetched list flips it. */
  lemma TapFlipsButton(l: seq<User>, currentUser: User)
    ensures LikeBond(Toggled(Some(l), currentUser), currentUser).likesButtonSelected
      == !LikeBond(Some(l), currentUser).likesButtonSelected
  {
    ToggleFlips(l, currentUser);
  }

  /** When every username is non-empty, the icon is hidden exactly when the
      label is empty, whether or not the likes are fetched. */
  lemma IconHiddenIffLabelEmpty(likeList: Option<seq<User>>, currentUser: User)
    requires likeList.Some? ==> forall i :: 0 <= i < |likeList.value| ==> likeList.value[i].username != ""
    ensures var d := LikeBond(likeList, currentUser);
      d.likesIconHidden <==> d.likesLabelText == ""
  {
    if likeList.Some? && |likeList.value| >= 1 {
      var l := likeList.value;
      assert |Usernames(l)[0]| >= 1;
      TotalLengthAtLeastFirst(Usernames(l));
    }
  }

  lemma TotalLengthAtLeastFirst(parts: seq<string>)
    requires |parts| >= 1
    ensures TotalLength(parts) >= |parts[0]|
  {
  }

  /** A like by a user with an empty name shows no text but does show the
      icon. */
  lemma EmptyNameShowsIcon(u: User, currentUser: User)
    requires u.username == ""
    ensures LikeBond(Some([u]), currentUser).likesLabelText == ""
    ensures !LikeBond(Some([u]), currentUser).likesIconHidden
  {
  }
}
