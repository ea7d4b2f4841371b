/**
  The `online_users` dictionary of the chat routes (backend/app/routes/chat.py):
  usernames mapped to socket ids, kept in insertion order as a Python dict is.
  Assigning to a present key keeps its position; `del` removes the key.
 */
module Registry {
  import opened Wrappers

  /** One dictionary item: (username, sid). */
  type Entry = (string, string)

  /** The socket id stored for `u`, if any (`online_users.get(u)`). */
  function Lookup(users: seq<Entry>, u: string): Option<string> {
    if |users| == 0 then None
    else if users[0].0 == u then Some(users[0].1)
    else Lookup(users[1..], u)
  }

  /** No username appears twice: the dictionary's keys are distinct. */
  predicate UniqueKeys(users: seq<Entry>) {
    |users| == 0 || (Lookup(users[1..], users[0].0).None? && UniqueKeys(users[1..]))
  }

  /** The usernames present. */
  function Usernames(users: seq<Entry>): set<string> {
    set i | 0 <= i < |users| :: users[i].0
  }

  lemma {:induction false} LookupNone(users: seq<Entry>, u: string)
    ensures Lookup(users, u).None? <==> u !in Usernames(users)
  {
    if |users| > 0 {
      LookupNone(users[1..], u);
      assert Usernames(users) == {users[0].0} + Usernames(users[1..]) by {
        forall k | k in Usernames(users) ensures k in {users[0].0} + Usernames(users[1..]) {
          var i :| 0 <= i < |users| && users[i].0 == k;
          if i > 0 { assert users[1..][i - 1].0 == k; }
        }
      }
    }
  }

  /** Distinct keys in the recursive sense are pairwise distinct. */
  lemma {:induction false} UniqueKeysPairwise(users: seq<Entry>, i: nat, j: nat)
    requires UniqueKeys(users)
    requires i < j < |users|
    ensures users[i].0 != users[j].0
  {
    if i == 0 {
      LookupNone(users[1..], users[0].0);
      assert users[1..][j - 1] == users[j];
    } else {
      UniqueKeysPairwise(users[1..], i - 1, j - 1);
    }
  }

  /** With distinct keys, the number of items is the number of usernames online. */
  lemma {:induction false} CountIsUsernames(users: seq<Entry>)
    requires UniqueKeys(users)
    ensures |Usernames(users)| == |users|
  {
    if |users| > 0 {
      CountIsUsernames(users[1..]);
      LookupNone(users[1..], users[0].0);
      assert Usernames(users) == {users[0].0} + Usernames(users[1..]) by {
        forall k | k in Usernames(users) ensures k in {users[0].0} + Usernames(users[1..]) {
          var i :| 0 <= i < |users| && users[i].0 == k;
          if i > 0 { assert users[1..][i - 1].0 == k; }
        }
      }
    }
  }

  /** An item's key finds its own sid when keys are distinct. */
  lemma {:induction false} LookupAt(users: seq<Entry>, i: nat)
    requires UniqueKeys(users) && i < |users|
    ensures Lookup(users, users[i].0) == Some(users[i].1)
  {
    if i > 0 {
      UniqueKeysPairwise(users, 0, i);
      LookupAt(users[1..], i - 1);
    }
  }

  /** `online_users[u] = sid`: last write wins, and an existing key keeps its place. */
  function Put(users: seq<Entry>, u: string, sid: string): (r: seq<Entry>)
    ensures Lookup(r, u) == Some(sid)
    ensures forall v :: v != u ==> Lookup(r, v) == Lookup(users, v)
    ensures |r| == if Lookup(users, u).Some? then |users| else |users| + 1
    ensures forall i :: 0 <= i < |users| ==> r[i].0 == users[i].0
    ensures UniqueKeys(users) ==> UniqueKeys(r)
  {
    if |users| == 0 then [(u, sid)]
    else if users[0].0 == u then [(u, sid)] + users[1..]
    else
      var rest := Put(users[1..], u, sid);
      var r := [users[0]] + rest;
      assert r[1..] == rest;
      r
  }

  /** `del online_users[u]`: the key goes, every other item stays in order. */
  function Delete(users: seq<Entry>, u: string): (r: seq<Entry>)
    ensures UniqueKeys(users) ==> Lookup(r, u).None?
    ensures forall v :: v != u ==> Lookup(r, v) == Lookup(users, v)
    ensures |r| == if Lookup(users, u).Some? then |users| - 1 else |users|
    ensures UniqueKeys(users) ==> UniqueKeys(r)
  {
    if |users| == 0 then []
    else if users[0].0 == u then users[1..]
    else
      var rest := Delete(users[1..], u);
      var r := [users[0]] + rest;
      assert r[1..] == rest;
      r
  }

  /** Deleting the key of item `i` removes exactly that item. */
  lemma {:induction false} DeleteAt(users: seq<Entry>, i: nat)
    requires UniqueKeys(users) && i < |users|
    ensures Delete(users, users[i].0) == users[..i] + users[i + 1..]
  {
    var u := users[i].0;
    if i == 0 {
      assert Delete(users, u) == users[1..];
    } else {
      UniqueKeysPairwise(users, 0, i);
      var tail := users[1..];
      assert tail[i - 1].0 == u;
      DeleteAt(tail, i - 1);
      assert Delete(users, u) == [users[0]] + Delete(tail, u);
      SplitAround(users, i);
    }
  }

  /** Removing item `i > 0` from a sequence is keeping its head and removing item `i - 1` from its tail. */
  lemma SplitAround(users: seq<Entry>, i: nat)
    requires 0 < i < |users|
    ensures users[..i] + users[i + 1..] == [users[0]] + (users[1..][..i - 1] + users[1..][i..])
  {
    assert users[..i] == [users[0]] + users[1..][..i - 1];
    assert users[i + 1..] == users[1..][i..];
  }

  /** The position of the first item whose sid is `sid`, as a loop over `online_users.items()` meets it. */
  function FindSid(users: seq<Entry>, sid: string): (r: Option<nat>)
    ensures r.Some? ==> r.value < |users| && users[r.value].1 == sid
    ensures r.Some? ==> forall k :: 0 <= k < r.value ==> users[k].1 != sid
    ensures r.None? ==> forall k :: 0 <= k < |users| ==> users[k].1 != sid
  {
    if |users| == 0 then None
    else if users[0].1 == sid then Some(0)
    else
      match FindSid(users[1..], sid)
      case None => None
      case Some(i) => Some(i + 1)
  }
}
