/**
 * The mock friend resolver of the friend-scoped hub (`getFriendsList`): from the
 * twenty users "1" to "20", drop the caller's own id, shuffle, keep the first ten.
 * An id whose `parseInt(...) - 1` is not an index of the twenty users gets no friends.
 * The random shuffle is a permutation chosen by the caller, so every property below
 * holds for every outcome of the shuffle.
 */
module FriendsList {
  import opened Wrappers
  import opened JsParseInt

  const UserCount: nat := 20
  const MaxFriends: nat := 10

  /** `Array.from({length: 20}, (_, i) => (i + 1).toString())`. */
  function AllUsers(): (ids: seq<string>)
    ensures |ids| == UserCount
  {
    seq(UserCount, i requires 0 <= i < UserCount => NatToString(i + 1))
  }

  predicate Distinct(s: seq<string>) {
    forall i, j :: 0 <= i < j < |s| ==> s[i] != s[j]
  }

  /**
   * The guard `currentUserIndex < 0 || currentUserIndex >= allUsers.length` with
   * `currentUserIndex = parseInt(userId) - 1`. When `parseInt` gives NaN both
   * comparisons are false, so the guard does not reject.
   */
  function Rejected(userId: string): (rejected: bool)
    ensures rejected ==> ParseInt(userId).Some?
    ensures ParseInt(userId).Some? ==> (rejected <==> !(1 <= ParseInt(userId).value <= UserCount))
  {
    match ParseInt(userId)
    case None => false
    case Some(v) => v - 1 < 0 || v - 1 >= UserCount
  }

  /** `s.filter(id => id !== x)`. */
  function Without(s: seq<string>, x: string): (r: seq<string>)
    ensures forall y :: y in r <==> y in s && y != x
  {
    if s == [] then [] else (if s[0] == x then [] else [s[0]]) + Without(s[1..], x)
  }

  /** The ids that the shuffle reorders: every user but the one whose id is exactly `userId`. */
  function Candidates(userId: string): (ids: seq<string>)
    ensures forall y :: y in ids <==> y in AllUsers() && y != userId
  {
    Without(AllUsers(), userId)
  }

  /** `perm` lists each index below `n` exactly once. */
  predicate IsPermutation(perm: seq<nat>, n: nat) {
    |perm| == n
    && (forall i :: 0 <= i < n ==> perm[i] < n)
    && (forall i, j :: 0 <= i < j < n ==> perm[i] != perm[j])
  }

  /** `.sort(() => Math.random() - 0.5)`: the element at position `i` is `s[perm[i]]`. */
  function Shuffle(s: seq<string>, perm: seq<nat>): (r: seq<string>)
    requires IsPermutation(perm, |s|)
    ensures |r| == |s|
    ensures forall y :: y in r ==> y in s
    ensures Distinct(s) ==> Distinct(r)
  {
    seq(|s|, i requires 0 <= i < |s| => s[perm[i]])
  }

  /** `.slice(0, n)`. */
  function Slice(s: seq<string>, n: nat): (r: seq<string>)
    ensures |r| == if |s| <= n then |s| else n
    ensures r <= s
  {
    if |s| <= n then s else s[..n]
  }

  /**
   * A friend list as the hub relies on it: at most ten ids, no id twice, each one of
   * the twenty users, and never the string the list was computed for.
   */
  predicate WellFormedFriends(userId: string, friends: seq<string>) {
    |friends| <= MaxFriends
    && Distinct(friends)
    && forall f :: f in friends ==> f in AllUsers() && f != userId
  }

  /** `getFriendsList(userId)` for the shuffle outcome `perm`. */
  function GetFriendsList(userId: string, perm: seq<nat>): (friends: seq<string>)
    requires IsPermutation(perm, |Candidates(userId)|)
    ensures WellFormedFriends(userId, friends)
    ensures |friends| == if Rejected(userId) then 0 else MaxFriends
  {
    if Rejected(userId) then []
    else
      AllUsersDistinct();
      CandidatesShape(userId);
      Slice(Shuffle(Candidates(userId), perm), MaxFriends)
  }

  lemma AllUsersDistinct()
    ensures Distinct(AllUsers())
  {
    forall i, j | 0 <= i < j < UserCount
      ensures AllUsers()[i] != AllUsers()[j]
    {
      NatToStringInjective(i + 1, j + 1);
    }
  }

  /** Filtering keeps a list free of repeats and removes at most the one occurrence of `x`. */
  lemma {:induction false} WithoutDistinct(s: seq<string>, x: string)
    requires Distinct(s)
    ensures Distinct(Without(s, x))
    ensures |Without(s, x)| == if x in s then |s| - 1 else |s|
  {
    if s != [] {
      assert Distinct(s[1..]);
      WithoutDistinct(s[1..], x);
      assert s[0] !in s[1..];
      assert x in s <==> x == s[0] || x in s[1..];
    }
  }

  /** A string that is not one of the twenty ids filters nothing out. */
  lemma {:induction false} WithoutAbsent(s: seq<string>, x: string)
    requires x !in s
    ensures Without(s, x) == s
  {
    if s != [] {
      WithoutAbsent(s[1..], x);
    }
  }

  /** The shuffle reorders 19 ids when `userId` is one of the twenty, and all 20 otherwise. */
  lemma CandidatesShape(userId: string)
    ensures Distinct(Candidates(userId))
    ensures |Candidates(userId)| == if userId in AllUsers() then UserCount - 1 else UserCount
  {
    AllUsersDistinct();
    WithoutDistinct(AllUsers(), userId);
  }

  /**
   * For a canonical id "1" to "20" the guard passes and the filter removes exactly that
   * id, so the list has exactly ten friends, none of them the user.
   */
  lemma CanonicalIdGetsTenOthers(userId: string, perm: seq<nat>)
    requires userId in AllUsers()
    requires IsPermutation(perm, |Candidates(userId)|)
    ensures |Candidates(userId)| == UserCount - 1
    ensures var friends := GetFriendsList(userId, perm);
      |friends| == MaxFriends && userId !in friends
  {
    var i :| 0 <= i < UserCount && AllUsers()[i] == userId;
    ParseIntOfNatToString(i + 1);
    assert !Rejected(userId);
    CandidatesShape(userId);
  }

  /** A number outside 1..20, printed in decimal, gets no friends: "0", "21", "100". */
  lemma OutOfRangeIdGetsNoFriends(n: nat, perm: seq<nat>)
    requires n == 0 || n > UserCount
    requires IsPermutation(perm, |Candidates(NatToString(n))|)
    ensures GetFriendsList(NatToString(n), perm) == []
  {
    ParseIntOfNatToString(n);
  }

  /** A negative number gets no friends: `parseInt("-3") - 1 < 0`. */
  lemma NegativeIdGetsNoFriends(n: nat, perm: seq<nat>)
    requires n > 0
    requires IsPermutation(perm, |Candidates("-" + NatToString(n))|)
    ensures GetFriendsList("-" + NatToString(n), perm) == []
  {
    var s := NatToString(n);
    assert !HasHexPrefix(s + []) by {
      assert s[1..] != [] ==> IsDecimalDigit(s[1]);
    }
    ParseIntReadsDecimal("-", s, []);
    assert "-" + (s + []) == "-" + s;
  }

  /**
   * An id `parseInt` cannot read (NaN), such as "abc" or a missing id ("undefined"),
   * passes the guard and filters nothing out: ten friends drawn from all twenty users.
   */
  lemma NaNIdGetsTenFriends(userId: string, perm: seq<nat>)
    requires ParseInt(userId) == None
    requires IsPermutation(perm, |Candidates(userId)|)
    ensures Candidates(userId) == AllUsers()
    ensures |GetFriendsList(userId, perm)| == MaxFriends
  {
    forall i | 0 <= i < UserCount
      ensures AllUsers()[i] != userId
    {
      ParseIntOfNatToString(i + 1);
    }
    WithoutAbsent(AllUsers(), userId);
  }

  function Identity(n: nat): (perm: seq<nat>)
    ensures IsPermutation(perm, n)
  {
    seq(n, i requires 0 <= i < n => i)
  }

  /**
   * Self-exclusion compares strings, not numbers: "03" reads as user 3 but is not the
   * string "3", so nothing is filtered out and user 3 can be listed as its own friend.
   */
  lemma PaddedIdCanListItself()
    ensures ParseInt("03") == Some(3)
    ensures Candidates("03") == AllUsers()
    ensures "3" in GetFriendsList("03", Identity(UserCount))
  {
    assert "03" == [] + ("03" + []);
    assert Value("03", 10) == 3 by {
      assert "03"[..1] == "0";
      assert "0"[..0] == [];
    }
    ParseIntReadsDecimal([], "03", []);
    assert "03" !in AllUsers();
    WithoutAbsent(AllUsers(), "03");
    var friends := GetFriendsList("03", Identity(UserCount));
    assert NatToString(3) == "3";
    assert friends[2] == AllUsers()[2];
  }
}
