/** The like toggle of `POST /api/posts/:id/like` on a single post, and what it keeps. */
module Likes {
  import opened Domain

  /** `s.indexOf(x)`: the position of the first `x` in `s`, or -1 when there is none. */
  function IndexOf(s: seq<string>, x: string): (i: int)
    ensures -1 <= i < |s|
    ensures i == -1 <==> x !in s
    ensures 0 <= i ==> s[i] == x && x !in s[..i]
  {
    if s == [] then -1
    else if s[0] == x then 0
    else
      var j := IndexOf(s[1..], x);
      assert s[1..][..j + 1] == s[1..j + 2] && s[..j + 2] == [s[0]] + s[1..j + 2];
      if j == -1 then -1 else j + 1
  }

  /** `s` without its first occurrence of `x`. */
  function RemoveFirst(s: seq<string>, x: string): (r: seq<string>)
    ensures x in s ==> |r| == |s| - 1
    ensures x !in s ==> r == s
  {
    if s == [] then []
    else if s[0] == x then s[1..]
    else [s[0]] + RemoveFirst(s[1..], x)
  }

  /** The post after `username` toggles its like: an unlike removes the first occurrence
      of the name and decrements `likes`; a like appends the name and increments `likes`. */
  function Toggled(p: Post, username: string): Post
  {
    if username in p.likedBy then
      p.(likedBy := RemoveFirst(p.likedBy, username), likes := p.likes - 1)
    else
      p.(likedBy := p.likedBy + [username], likes := p.likes + 1)
  }

  /** Splicing out entry `j + 1` keeps the head in front of the spliced tail. */
  lemma SpliceBehindHead(s: seq<string>, j: nat)
    requires j + 1 < |s|
    ensures s[..j + 1] + s[j + 2..] == [s[0]] + (s[1..][..j] + s[1..][j + 1..])
  {
    assert s[..j + 1] == [s[0]] + s[1..][..j];
    assert s[j + 2..] == s[1..][j + 1..];
  }

  /** Splicing out the entry at `indexOf` is removing the first occurrence. */
  lemma {:induction false} SpliceAtIndexOf(s: seq<string>, x: string)
    requires x in s
    ensures var i := IndexOf(s, x); s[..i] + s[i + 1..] == RemoveFirst(s, x)
  {
    if s[0] != x {
      var tail := s[1..];
      SpliceAtIndexOf(tail, x);
      var j := IndexOf(tail, x);
      assert IndexOf(s, x) == j + 1;
      assert RemoveFirst(s, x) == [s[0]] + RemoveFirst(tail, x);
      SpliceBehindHead(s, j);
    }
  }

  /** Removing the first occurrence takes exactly one `x` out of the multiset of names. */
  lemma {:induction false} RemoveFirstMultiset(s: seq<string>, x: string)
    ensures multiset(RemoveFirst(s, x)) == multiset(s) - multiset{x}
  {
    if s != [] {
      assert s == [s[0]] + s[1..];
      if s[0] != x {
        RemoveFirstMultiset(s[1..], x);
      }
    }
  }

  /** Removing an entry from a duplicate-free list leaves it duplicate-free and without it. */
  lemma {:induction false} RemoveFirstNoDuplicates(s: seq<string>, x: string)
    requires NoDuplicates(s)
    ensures NoDuplicates(RemoveFirst(s, x)) && x !in RemoveFirst(s, x)
  {
    if s != [] {
      NoDuplicatesTail(s);
      if s[0] != x {
        var r := RemoveFirst(s[1..], x);
        RemoveFirstNoDuplicates(s[1..], x);
        RemoveFirstMultiset(s[1..], x);
        assert s[0] !in r by {
          assert s[0] !in multiset(s[1..]);
          assert s[0] !in multiset(r);
        }
        NoDuplicatesCons(s[0], r);
      }
    }
  }

  /** Toggling changes only `likes` and `likedBy`, and keeps `likes - |likedBy|`. */
  lemma ToggleKeepsLikeSurplus(p: Post, username: string)
    ensures var q := Toggled(p, username);
      q == p.(likes := q.likes, likedBy := q.likedBy)
      && q.likes - |q.likedBy| == p.likes - |p.likedBy|
  {
  }

  /** A like adds one `username` to the likers and an unlike takes one away; the number
      of times every other name occurs is unchanged. */
  lemma ToggleChangesOneName(p: Post, username: string)
    ensures var q := Toggled(p, username);
      if username in p.likedBy then
        multiset(q.likedBy) == multiset(p.likedBy) - multiset{username} && q.likes == p.likes - 1
      else
        multiset(q.likedBy) == multiset(p.likedBy) + multiset{username} && q.likes == p.likes + 1
  {
    RemoveFirstMultiset(p.likedBy, username);
  }

  /** Toggling keeps a duplicate-free liker list duplicate-free. */
  lemma ToggleKeepsNoDuplicates(p: Post, username: string)
    requires NoDuplicates(p.likedBy)
    ensures NoDuplicates(Toggled(p, username).likedBy)
  {
    RemoveFirstNoDuplicates(p.likedBy, username);
  }

  /** On a duplicate-free liker list a toggle flips whether `username` likes the post,
      and leaves every other name's membership as it was. */
  lemma ToggleFlipsMembership(p: Post, username: string, other: string)
    requires NoDuplicates(p.likedBy)
    ensures username in Toggled(p, username).likedBy <==> username !in p.likedBy
    ensures other != username ==>
      (other in Toggled(p, username).likedBy <==> other in p.likedBy)
  {
    RemoveFirstNoDuplicates(p.likedBy, username);
    RemoveFirstMultiset(p.likedBy, username);
    assert other in p.likedBy <==> other in multiset(p.likedBy);
    assert other in Toggled(p, username).likedBy <==> other in multiset(Toggled(p, username).likedBy);
  }

  /** With a name listed twice or more an unlike decrements `likes` but does not flip
      membership: a copy of the name stays. */
  lemma ToggleWithDuplicateStaysLiked(p: Post, username: string)
    requires multiset(p.likedBy)[username] >= 2
    ensures username in Toggled(p, username).likedBy
    ensures Toggled(p, username).likes == p.likes - 1
  {
    assert username in multiset(p.likedBy);
    RemoveFirstMultiset(p.likedBy, username);
    assert username in multiset(RemoveFirst(p.likedBy, username));
  }

  /** Toggling twice with the same name restores `likes` and the multiset of likers of a
      duplicate-free post, and touches nothing else. */
  lemma ToggleTwiceRestores(p: Post, username: string)
    requires NoDuplicates(p.likedBy)
    ensures var q := Toggled(Toggled(p, username), username);
      q.likes == p.likes && multiset(q.likedBy) == multiset(p.likedBy)
      && q == p.(likedBy := q.likedBy)
  {
    var q1 := Toggled(p, username);
    var q := Toggled(q1, username);
    ToggleKeepsLikeSurplus(p, username);
    ToggleKeepsLikeSurplus(q1, username);
    ToggleFlipsMembership(p, username, username);
    ToggleChangesOneName(p, username);
    ToggleChangesOneName(q1, username);
    var m := multiset(p.likedBy);
    if username in p.likedBy {
      assert username !in q1.likedBy;
      assert multiset(q.likedBy) == (m - multiset{username}) + multiset{username};
      assert username in m;
    } else {
      assert username in q1.likedBy;
      assert multiset(q.likedBy) == (m + multiset{username}) - multiset{username};
    }
  }

  /** The liker list itself comes back after two toggles when the name was absent or
      last; otherwise it does not (an unlike removes the name in place, a like re-appends
      it at the end, see ToggleTwiceReorders). */
  lemma ToggleTwiceRestoresList(p: Post, username: string)
    requires NoDuplicates(p.likedBy)
    requires username !in p.likedBy || p.likedBy[|p.likedBy| - 1] == username
    ensures Toggled(Toggled(p, username), username) == p
  {
    var s := p.likedBy;
    if username in s {
      SpliceAtIndexOf(s, username);
      var i := IndexOf(s, username);
      assert i == |s| - 1;
      assert RemoveFirst(s, username) == s[..i];
      RemoveFirstNoDuplicates(s, username);
      assert s[..i] + [username] == s;
    } else {
      var t := s + [username];
      SpliceAtIndexOf(t, username);
      assert IndexOf(t, username) == |s|;
      assert t[..|s|] == s;
    }
  }

  /** Unlike-then-like takes the name out where it stood and appends it at the end, so a
      name that was not last does not come back to its place. */
  lemma ToggleTwiceReorders(p: Post, username: string)
    requires NoDuplicates(p.likedBy) && username in p.likedBy
    ensures Toggled(Toggled(p, username), username).likedBy == RemoveFirst(p.likedBy, username) + [username]
    ensures p.likedBy[|p.likedBy| - 1] != username ==>
      Toggled(Toggled(p, username), username).likedBy != p.likedBy
  {
    RemoveFirstNoDuplicates(p.likedBy, username);
    var r := Toggled(Toggled(p, username), username).likedBy;
    assert r[|r| - 1] == username;
  }

  /** What one toggle does on a duplicate-free post, in the terms `ToggleParity` counts. */
  lemma ToggleStep(p: Post, username: string)
    requires NoDuplicates(p.likedBy)
    ensures var q := Toggled(p, username);
      && NoDuplicates(q.likedBy)
      && q.likes - |q.likedBy| == p.likes - |p.likedBy|
      && (username in q.likedBy <==> username !in p.likedBy)
      && q.likes == p.likes + (if username in p.likedBy then -1 else 1)
  {
    ToggleKeepsNoDuplicates(p, username);
    ToggleFlipsMembership(p, username, username);
    ToggleKeepsLikeSurplus(p, username);
  }

  /** The counting step of `ToggleParity`, on the posts after `n - 1` and `n` toggles. */
  lemma ParityStep(p: Post, q0: Post, q: Post, username: string, n: nat)
    requires n > 0
    requires q0.likes - |q0.likedBy| == p.likes - |p.likedBy|
    requires username in q0.likedBy <==> (username in p.likedBy) != ((n - 1) % 2 == 1)
    requires q0.likes == p.likes + (if (n - 1) % 2 == 0 then 0 else if username in p.likedBy then -1 else 1)
    requires q.likes - |q.likedBy| == q0.likes - |q0.likedBy|
    requires username in q.likedBy <==> username !in q0.likedBy
    requires q.likes == q0.likes + (if username in q0.likedBy then -1 else 1)
    ensures q.likes - |q.likedBy| == p.likes - |p.likedBy|
    ensures username in q.likedBy <==> (username in p.likedBy) != (n % 2 == 1)
    ensures q.likes == p.likes + (if n % 2 == 0 then 0 else if username in p.likedBy then -1 else 1)
  {
    if n % 2 == 0 {
      assert (n - 1) % 2 == 1;
    } else {
      assert (n - 1) % 2 == 0;
    }
  }

  /** The post after `n` toggles by the same name. */
  function ToggledTimes(p: Post, username: string, n: nat): Post
  {
    if n == 0 then p else Toggled(ToggledTimes(p, username, n - 1), username)
  }

  /** An even number of toggles restores `likes` and membership; an odd number flips
      membership and moves `likes` by one; `likes - |likedBy|` and duplicate-freedom
      hold throughout. */
  lemma {:induction false} ToggleParity(p: Post, username: string, n: nat)
    requires NoDuplicates(p.likedBy)
    ensures var q := ToggledTimes(p, username, n);
      && NoDuplicates(q.likedBy)
      && q.likes - |q.likedBy| == p.likes - |p.likedBy|
      && (username in q.likedBy <==> (username in p.likedBy) != (n % 2 == 1))
      && q.likes == p.likes + (if n % 2 == 0 then 0 else if username in p.likedBy then -1 else 1)
  {
    if n > 0 {
      var q0 := ToggledTimes(p, username, n - 1);
      var q := Toggled(q0, username);
      assert q == ToggledTimes(p, username, n);
      ToggleParity(p, username, n - 1);
      ToggleStep(q0, username);
      ParityStep(p, q0, q, username, n);
    }
  }
}
