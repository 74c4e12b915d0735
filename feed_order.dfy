/** The order `GET /api/posts` puts the store in: `posts.sort` with the comparator
    `(a, b) => new Date(b.timestamp) - new Date(a.timestamp)`, a stable sort that
    puts the most recent post first and keeps posts with equal timestamps in the order
    they were stored. */
module FeedOrder {
  import opened Domain

  /** Most recent first. */
  predicate NewestFirst(s: seq<Post>)
  {
    forall i, j :: 0 <= i < j < |s| ==> s[i].timestamp >= s[j].timestamp
  }

  /** The posts of `s` whose timestamp is `t`, in the order of `s`. */
  function AtTime(s: seq<Post>, t: int): (r: seq<Post>)
    ensures forall q :: q in r ==> q in s && q.timestamp == t
  {
    if s == [] then []
    else (if s[0].timestamp == t then [s[0]] else []) + AtTime(s[1..], t)
  }

  /** `r` keeps every group of equal timestamps of `s` in the order of `s`. */
  ghost predicate SameTies(r: seq<Post>, s: seq<Post>)
  {
    forall t :: AtTime(r, t) == AtTime(s, t)
  }

  /** Places `p` in front of the first post that is not more recent than it. */
  function Insert(p: Post, s: seq<Post>): (r: seq<Post>)
    ensures |r| == |s| + 1
    ensures forall q :: q in r ==> q == p || q in s
  {
    if s == [] || s[0].timestamp <= p.timestamp then [p] + s
    else [s[0]] + Insert(p, s[1..])
  }

  /** The stored order after a listing: a stable sort, most recent first. */
  function SortNewestFirst(s: seq<Post>): seq<Post>
  {
    if s == [] then [] else Insert(s[0], SortNewestFirst(s[1..]))
  }

  lemma {:induction false} InsertMultiset(p: Post, s: seq<Post>)
    ensures multiset(Insert(p, s)) == multiset(s) + multiset{p}
  {
    if !(s == [] || s[0].timestamp <= p.timestamp) {
      InsertMultiset(p, s[1..]);
      assert s == [s[0]] + s[1..];
    }
  }

  /** The timestamp-`t` posts of a list that starts with `q`. */
  lemma AtTimeCons(q: Post, s: seq<Post>, t: int)
    ensures AtTime([q] + s, t) == (if q.timestamp == t then [q] else []) + AtTime(s, t)
  {
    assert ([q] + s)[0] == q && ([q] + s)[1..] == s;
  }

  /** Two pieces of which one is empty can be swapped in front of a third. */
  lemma SwapEmpty(x: seq<Post>, y: seq<Post>, z: seq<Post>)
    requires x == [] || y == []
    ensures x + (y + z) == y + (x + z)
  {
    if x == [] {
      assert x + (y + z) == y + z;
      assert y + (x + z) == y + z;
    } else {
      assert x + (y + z) == x + z;
      assert y + (x + z) == x + z;
    }
  }

  lemma {:induction false} InsertAtTime(p: Post, s: seq<Post>, t: int)
    ensures AtTime(Insert(p, s), t) == (if p.timestamp == t then [p] else []) + AtTime(s, t)
  {
    var mine := if p.timestamp == t then [p] else [];
    if s == [] || s[0].timestamp <= p.timestamp {
      AtTimeCons(p, s, t);
    } else {
      var rest := Insert(p, s[1..]);
      var theirs := if s[0].timestamp == t then [s[0]] else [];
      assert Insert(p, s) == [s[0]] + rest;
      assert s == [s[0]] + s[1..];
      InsertAtTime(p, s[1..], t);
      AtTimeCons(s[0], rest, t);
      AtTimeCons(s[0], s[1..], t);
      SwapEmpty(theirs, mine, AtTime(s[1..], t));
    }
  }

  lemma {:induction false} InsertNewestFirst(p: Post, s: seq<Post>)
    requires NewestFirst(s)
    ensures NewestFirst(Insert(p, s))
  {
    var r := Insert(p, s);
    if s == [] || s[0].timestamp <= p.timestamp {
      forall i, j | 0 <= i < j < |r| ensures r[i].timestamp >= r[j].timestamp {
        assert r[j] == s[j - 1];
        if i > 0 {
          assert r[i] == s[i - 1];
        }
      }
    } else {
      var rest := Insert(p, s[1..]);
      NewestFirstTail(s);
      InsertNewestFirst(p, s[1..]);
      assert r == [s[0]] + rest;
      forall i, j | 0 <= i < j < |r| ensures r[i].timestamp >= r[j].timestamp {
        assert r[j] == rest[j - 1];
        if i == 0 {
          assert r[j] in rest;
        } else {
          assert r[i] == rest[i - 1];
        }
      }
    }
  }

  /** A listing puts the posts most recent first, loses and adds none, and keeps posts
      that share a timestamp in their previous order. */
  lemma {:induction false} SortNewestFirstCorrect(s: seq<Post>)
    ensures NewestFirst(SortNewestFirst(s))
    ensures multiset(SortNewestFirst(s)) == multiset(s)
    ensures SameTies(SortNewestFirst(s), s)
  {
    if s != [] {
      SortNewestFirstCorrect(s[1..]);
      InsertNewestFirst(s[0], SortNewestFirst(s[1..]));
      InsertMultiset(s[0], SortNewestFirst(s[1..]));
      assert s == [s[0]] + s[1..];
      forall t ensures AtTime(SortNewestFirst(s), t) == AtTime(s, t) {
        InsertAtTime(s[0], SortNewestFirst(s[1..]), t);
      }
    }
  }

  lemma NewestFirstTail(s: seq<Post>)
    requires NewestFirst(s) && s != []
    ensures NewestFirst(s[1..])
    ensures forall q :: q in s ==> q.timestamp <= s[0].timestamp
  {
    forall i, j | 0 <= i < j < |s[1..]| ensures s[1..][i].timestamp >= s[1..][j].timestamp {
      assert s[1..][i] == s[i + 1] && s[1..][j] == s[j + 1];
    }
  }

  lemma HeadHasTies(s: seq<Post>)
    requires s != []
    ensures AtTime(s, s[0].timestamp) != []
  {
  }

  /** Two most-recent-first lists with the same ties start with the same post. */
  lemma SameTiesSameHead(a: seq<Post>, b: seq<Post>)
    requires NewestFirst(a) && NewestFirst(b) && SameTies(a, b)
    requires a != [] && b != []
    ensures a[0] == b[0]
  {
    NewestFirstTail(a);
    NewestFirstTail(b);
    var ta, tb := a[0].timestamp, b[0].timestamp;
    AtTimeCons(a[0], a[1..], ta);
    AtTimeCons(b[0], b[1..], tb);
    assert a == [a[0]] + a[1..] && b == [b[0]] + b[1..];
    assert a[0] in AtTime(a, ta) && b[0] in AtTime(b, tb);
    assert AtTime(b, ta) == AtTime(a, ta);
    assert AtTime(a, tb) == AtTime(b, tb);
    assert ta == tb;
    AtTimeCons(b[0], b[1..], ta);
    assert AtTime(a, ta)[0] == a[0] && AtTime(b, ta)[0] == b[0];
  }

  /** Dropping a common first post keeps the ties equal. */
  lemma SameTiesTails(a: seq<Post>, b: seq<Post>)
    requires SameTies(a, b) && a != [] && b != [] && a[0] == b[0]
    ensures SameTies(a[1..], b[1..])
  {
    forall t ensures AtTime(a[1..], t) == AtTime(b[1..], t) {
      AtTimeCons(a[0], a[1..], t);
      AtTimeCons(b[0], b[1..], t);
      assert a == [a[0]] + a[1..] && b == [b[0]] + b[1..];
      var h := if a[0].timestamp == t then [a[0]] else [];
      assert AtTime(a, t) == AtTime(b, t);
      assert AtTime(a[1..], t) == (h + AtTime(a[1..], t))[|h|..];
      assert AtTime(b[1..], t) == (h + AtTime(b[1..], t))[|h|..];
    }
  }

  /** At most one arrangement is most recent first with every group of equal timestamps
      in a given order: the stable sort is determined by its input. */
  lemma {:induction false} StableOrderUnique(a: seq<Post>, b: seq<Post>)
    requires NewestFirst(a) && NewestFirst(b) && SameTies(a, b)
    ensures a == b
  {
    if a == [] || b == [] {
      if a != [] {
        HeadHasTies(a);
        assert false;
      } else if b != [] {
        HeadHasTies(b);
        assert false;
      }
    } else {
      SameTiesSameHead(a, b);
      SameTiesTails(a, b);
      NewestFirstTail(a);
      NewestFirstTail(b);
      StableOrderUnique(a[1..], b[1..]);
      assert a == [a[0]] + a[1..] && b == [b[0]] + b[1..];
    }
  }

  /** A store already most recent first is left as it is by a listing. */
  lemma SortOfNewestFirstIsIdentity(s: seq<Post>)
    requires NewestFirst(s)
    ensures SortNewestFirst(s) == s
  {
    SortNewestFirstCorrect(s);
    StableOrderUnique(SortNewestFirst(s), s);
  }

  /** Listing twice gives the same order as listing once. */
  lemma SortIdempotent(s: seq<Post>)
    ensures SortNewestFirst(SortNewestFirst(s)) == SortNewestFirst(s)
  {
    SortNewestFirstCorrect(s);
    SortOfNewestFirstIsIdentity(SortNewestFirst(s));
  }

  /** Prepending a post at least as recent as every stored one keeps a most-recent-first
      store most recent first. */
  lemma PrependNewestKeepsOrder(p: Post, s: seq<Post>)
    requires NewestFirst(s)
    requires forall q :: q in s ==> q.timestamp <= p.timestamp
    ensures NewestFirst([p] + s)
  {
    var r := [p] + s;
    forall i, j | 0 <= i < j < |r| ensures r[i].timestamp >= r[j].timestamp {
      assert r[j] == s[j - 1];
      if i > 0 {
        assert r[i] == s[i - 1];
      }
    }
  }
}
