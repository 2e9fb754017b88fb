/**
 Backend objects and their equality. The app makes every backend object
 Equatable by comparing object ids only, so two records of the same user
 that differ in any other field (a stale username, say) are "equal".
 Membership tests (`contains`) and the `!=` of a filter use that equality.
 */
module Objects {

  /** A backend user: the object id the backend assigned and the handle. */
  datatype User = User(objectId: string, username: string)

  /** `==` on backend objects: equal object ids. */
  predicate SameObject(a: User, b: User)
  {
    a.objectId == b.objectId
  }

  /** Object equality is an equivalence relation, and it is coarser than
      value equality: two users with one id but different handles are equal. */
  lemma SameObjectIsEquivalence()
    ensures forall a :: SameObject(a, a)
    ensures forall a, b :: SameObject(a, b) ==> SameObject(b, a)
    ensures forall a, b, c :: SameObject(a, b) && SameObject(b, c) ==> SameObject(a, c)
    ensures forall a, b :: a == b ==> SameObject(a, b)
    ensures SameObject(User("1", "ann"), User("1", "bob")) && User("1", "ann") != User("1", "bob")
  {
  }

  /** Swift's `contains(users, u)` under object equality. */
  function Contains(users: seq<User>, u: User): (b: bool)
    ensures b <==> exists i :: 0 <= i < |users| && SameObject(users[i], u)
  {
    if users == [] then false
    else if SameObject(users[0], u) then true
    else
      var rest := Contains(users[1..], u);
      assert rest ==> exists i :: 0 <= i < |users| && SameObject(users[i], u) by {
        if rest {
          var k :| 0 <= k < |users| - 1 && SameObject(users[1..][k], u);
          assert SameObject(users[k + 1], u);
        }
      }
      rest
  }

  /** Contains distributes over concatenation. */
  lemma ContainsConcat(a: seq<User>, b: seq<User>, u: User)
    ensures Contains(a + b, u) <==> Contains(a, u) || Contains(b, u)
  {
    if Contains(a + b, u) {
      var i :| 0 <= i < |a + b| && SameObject((a + b)[i], u);
      if i >= |a| { assert SameObject(b[i - |a|], u); }
    }
    if Contains(a, u) {
      var j :| 0 <= j < |a| && SameObject(a[j], u);
      assert SameObject((a + b)[j], u);
    }
    if Contains(b, u) {
      var j :| 0 <= j < |b| && SameObject(b[j], u);
      assert SameObject((a + b)[|a| + j], u);
    }
  }
}
