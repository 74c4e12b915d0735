/** The pure logic of the client's post card: the like state and label, the relative
    time, which comments are shown, and the comment form's submit guard. */
module PostView {
  import opened Domain
  import opened Text
  import Likes

  /** `post.likedBy?.includes(currentUser.username)`. */
  predicate IsLiked(likedBy: seq<string>, username: string)
  {
    username in likedBy
  }

  /** The card's heart and the server's toggle agree on who likes a post: the card shows
      it liked exactly when the server's `indexOf` test would unlike. */
  lemma IsLikedMatchesServerTest(p: Post, username: string)
    ensures IsLiked(p.likedBy, username) <==> Likes.IndexOf(p.likedBy, username) > -1
    ensures IsLiked(p.likedBy, username) ==> Likes.Toggled(p, username).likes == p.likes - 1
    ensures !IsLiked(p.likedBy, username) ==> Likes.Toggled(p, username).likes == p.likes + 1
  {
  }

  /** On a duplicate-free liker list, a click on the heart flips it. */
  lemma ToggleFlipsHeart(p: Post, username: string)
    requires NoDuplicates(p.likedBy)
    ensures IsLiked(Likes.Toggled(p, username).likedBy, username) <==> !IsLiked(p.likedBy, username)
  {
    Likes.ToggleFlipsMembership(p, username, username);
  }

  /** `post.likes === 1 ? '1 like' : `${post.likes} likes``. */
  function LikeLabel(likes: int): string
  {
    if likes == 1 then "1 like" else IntToDecimal(likes) + " likes"
  }

  /** The text of `s` before its first space (all of `s` when it has none). */
  function BeforeSpace(s: string): (r: string)
    ensures |r| <= |s| && r == s[..|r|]
  {
    if s == [] || s[0] == ' ' then [] else [s[0]] + BeforeSpace(s[1..])
  }

  /** The text of `s` after its first space (empty when it has none). */
  function AfterSpace(s: string): (r: string)
  {
    if s == [] then [] else if s[0] == ' ' then s[1..] else AfterSpace(s[1..])
  }

  lemma {:induction false} SplitAtSpace(w: string, rest: string)
    requires ' ' !in w
    ensures BeforeSpace(w + " " + rest) == w && AfterSpace(w + " " + rest) == rest
  {
    if w != [] {
      assert (w + " " + rest)[1..] == w[1..] + " " + rest;
      SplitAtSpace(w[1..], rest);
    } else {
      assert w + " " + rest == [' '] + rest;
    }
  }

  lemma IntToDecimalHasNoSpace(i: int)
    ensures ' ' !in IntToDecimal(i)
  {
    var r := IntToDecimal(i);
    if i < 0 {
      var d := NatToDecimal(-i);
      assert r == "-" + d;
      forall k | 0 <= k < |r| ensures r[k] != ' ' {
        if k > 0 {
          assert r[k] == d[k - 1];
        }
      }
    }
  }

  /** The label reads as the like count followed by `like` for exactly one like and by
      `likes` otherwise (zero and negative counts included). */
  lemma LikeLabelReadsBack(likes: int)
    ensures IsIntText(BeforeSpace(LikeLabel(likes))) && ParseInt(BeforeSpace(LikeLabel(likes))) == likes
    ensures AfterSpace(LikeLabel(likes)) == (if likes == 1 then "like" else "likes")
  {
    IntToDecimalRoundTrip(likes);
    IntToDecimalHasNoSpace(likes);
    if likes == 1 {
      assert IntToDecimal(1) == "1";
      assert LikeLabel(likes) == IntToDecimal(1) + " " + "like";
      SplitAtSpace(IntToDecimal(1), "like");
    } else {
      assert LikeLabel(likes) == IntToDecimal(likes) + " " + "likes";
      SplitAtSpace(IntToDecimal(likes), "likes");
    }
  }

  const MsPerMinute := 60000
  const MsPerHour := 3600000
  const MsPerDay := 86400000

  /** `formatTimestamp`: the age of a post relative to the clock, `now - timestamp`
      milliseconds, in whole days, else whole hours, else whole minutes, else `now`.
      `Math.floor` of a quotient by a positive divisor is Dafny's `/`. */
  function FormatTimestamp(now: int, timestamp: int): string
  {
    var diffInMs := now - timestamp;
    var diffInHours := diffInMs / MsPerHour;
    var diffInDays := diffInHours / 24;
    if diffInDays > 0 then NatToDecimal(diffInDays) + "d"
    else if diffInHours > 0 then NatToDecimal(diffInHours) + "h"
    else
      var diffInMinutes := diffInMs / MsPerMinute;
      if diffInMinutes > 0 then NatToDecimal(diffInMinutes) + "m" else "now"
  }

  /** Flooring to hours and then to days is flooring to days. */
  lemma FloorHoursThenDays(ms: int)
    ensures (ms / MsPerHour) / 24 == ms / MsPerDay
  {
    var h := ms / MsPerHour;
    var d := h / 24;
    assert MsPerHour * h <= ms < MsPerHour * h + MsPerHour;
    assert 24 * d <= h < 24 * d + 24;
    assert MsPerDay * d <= ms < MsPerDay * d + MsPerDay;
  }

  /** The unit follows the age: `now` under a minute (and for any timestamp in the
      future), `m` under an hour, `h` under a day, `d` from a day on; the number is the
      age floored to that unit. */
  lemma FormatTimestampUnits(now: int, timestamp: int)
    ensures var age := now - timestamp; var r := FormatTimestamp(now, timestamp);
      && (age < MsPerMinute ==> r == "now")
      && (MsPerMinute <= age < MsPerHour ==> r == NatToDecimal(age / MsPerMinute) + "m")
      && (MsPerHour <= age < MsPerDay ==> r == NatToDecimal(age / MsPerHour) + "h")
      && (MsPerDay <= age ==> r == NatToDecimal(age / MsPerDay) + "d")
  {
    var age := now - timestamp;
    FloorHoursThenDays(age);
    if age < MsPerMinute {
      assert age / MsPerHour <= 0 && age / MsPerMinute <= 0;
    } else if age < MsPerHour {
      assert age / MsPerHour == 0;
    } else if age < MsPerDay {
      assert age / MsPerHour > 0 && age / MsPerDay == 0;
    } else {
      assert age / MsPerDay > 0;
    }
  }

  /** `r` is a decimal number followed by the one-character unit `unit`, and the number
      reads back as `amount`. */
  predicate ReadsBackAs(r: string, amount: int, unit: char)
  {
    |r| >= 2 && r[|r| - 1] == unit && IsDigits(r[..|r| - 1]) && DecimalValue(r[..|r| - 1]) == amount
  }

  lemma SuffixedReadsBack(n: nat, unit: char)
    ensures ReadsBackAs(NatToDecimal(n) + [unit], n, unit)
  {
    var r := NatToDecimal(n) + [unit];
    assert r[..|r| - 1] == NatToDecimal(n);
    NatToDecimalRoundTrip(n);
  }

  /** The shown number can be read back: it is the age in the unit the suffix names. */
  lemma FormatTimestampReadsBack(now: int, timestamp: int)
    ensures var age := now - timestamp; var r := FormatTimestamp(now, timestamp);
      r != "now" ==>
        || ReadsBackAs(r, age / MsPerDay, 'd')
        || ReadsBackAs(r, age / MsPerHour, 'h')
        || ReadsBackAs(r, age / MsPerMinute, 'm')
  {
    var age := now - timestamp;
    var r := FormatTimestamp(now, timestamp);
    if MsPerDay <= age {
      assert ReadsBackAs(r, age / MsPerDay, 'd') by {
        FormatTimestampUnits(now, timestamp);
        SuffixedReadsBack(age / MsPerDay, 'd');
      }
    } else if MsPerHour <= age {
      assert ReadsBackAs(r, age / MsPerHour, 'h') by {
        FormatTimestampUnits(now, timestamp);
        SuffixedReadsBack(age / MsPerHour, 'h');
      }
    } else if MsPerMinute <= age {
      assert ReadsBackAs(r, age / MsPerMinute, 'm') by {
        FormatTimestampUnits(now, timestamp);
        SuffixedReadsBack(age / MsPerMinute, 'm');
      }
    } else {
      assert r == "now" by {
        FormatTimestampUnits(now, timestamp);
      }
    }
  }

  /** `showAllComments ? post.comments : post.comments.slice(0, 2)`. */
  function DisplayedComments(comments: seq<Comment>, showAll: bool): seq<Comment>
  {
    if showAll then comments else comments[..if |comments| < 2 then |comments| else 2]
  }

  /** The "View all N comments" control. */
  predicate ShowsViewAll(comments: seq<Comment>, showAll: bool)
  {
    |comments| > 2 && !showAll
  }

  /** The "Show less" control. */
  predicate ShowsShowLess(comments: seq<Comment>, showAll: bool)
  {
    |comments| > 2 && showAll
  }

  /** The card shows the oldest comments first: all of them when expanded, the first
      two (or fewer, when there are fewer) when collapsed. */
  lemma DisplayedCommentsPrefix(comments: seq<Comment>, showAll: bool)
    ensures var shown := DisplayedComments(comments, showAll);
      && shown <= comments
      && |shown| == (if showAll || |comments| < 2 then |comments| else 2)
  {
  }

  /** "View all" appears exactly when comments are hidden, "Show less" exactly when more
      than two are shown, and never both. */
  lemma CommentControls(comments: seq<Comment>, showAll: bool)
    ensures var shown := DisplayedComments(comments, showAll);
      && (ShowsViewAll(comments, showAll) <==> |shown| < |comments|)
      && (ShowsShowLess(comments, showAll) <==> |shown| > 2)
      && !(ShowsViewAll(comments, showAll) && ShowsShowLess(comments, showAll))
  {
  }

  /** What submitting the comment form does: whether `onAddComment` is called and with
      which text, and the draft left in the input. */
  datatype Submit = Submit(sent: Option<string>, draft: string)

  /** `handleCommentSubmit`. */
  function CommentSubmit(draft: string): (s: Submit)
  {
    if Trim(draft) != "" then Submit(Some(draft), "") else Submit(None, draft)
  }

  /** The form passes the draft on untrimmed and clears it exactly when it holds a
      visible character; a blank draft stays in the input and nothing is sent. */
  lemma CommentSubmitGuard(draft: string)
    ensures CommentSubmit(draft).sent.Some? <==> !IsBlank(draft)
    ensures CommentSubmit(draft).sent.Some? ==> CommentSubmit(draft) == Submit(Some(draft), "")
    ensures CommentSubmit(draft).sent.None? ==> CommentSubmit(draft).draft == draft
  {
    TrimEmptyIffBlank(draft);
  }
}
