/** The API's in-memory store and the handlers that read and change it. */
module Server {
  import opened Domain
  import opened Text
  import Likes
  import FeedOrder

  /** The one registered user the store starts with; no handler adds users. */
  const SeedUser := User("1", "demo_user", "demo@example.com")

  /** The demo post the store starts with. The post and its comment each read the clock:
      `postTime` and `commentTime` are the two readings. Its 15 likes come with an empty
      liker list. */
  function SeedPost(postTime: int, commentTime: int): Post
  {
    Post("1", "demo_user", "https://via.placeholder.com/400x400?text=Demo+Post",
      "Welcome to Instagram Mini! This is a demo post.", 15, [], postTime,
      [Comment("1", "friend1", "Great app!", commentTime)])
  }

  /** The like counter is not the number of likers: the seed post already differs. */
  lemma SeedLikesDifferFromLikers(postTime: int, commentTime: int)
    ensures SeedPost(postTime, commentTime).likes - |SeedPost(postTime, commentTime).likedBy| == 15
  {
  }

  /** The upload filter: `file.originalname.match(/\.(jpg|jpeg|png|gif)$/)`. The
      pattern has no `i` flag, so the match is case-sensitive, and `$` anchors at the
      very end of the name. */
  predicate IsImageFilename(name: string)
  {
    EndsWith(name, ".jpg") || EndsWith(name, ".jpeg") || EndsWith(name, ".png") || EndsWith(name, ".gif")
  }

  /** The position of the last `.` in `s`, or -1. */
  function LastDot(s: string): (i: int)
    ensures -1 <= i < |s|
    ensures i == -1 ==> forall k :: 0 <= k < |s| ==> s[k] != '.'
    ensures 0 <= i ==> s[i] == '.' && forall k :: i < k < |s| ==> s[k] != '.'
  {
    if s == [] then -1
    else if s[|s| - 1] == '.' then |s| - 1
    else LastDot(s[..|s| - 1])
  }

  /** A dot with no dot after it is the last dot. */
  lemma LastDotAt(s: string, d: int)
    requires 0 <= d < |s| && s[d] == '.'
    requires forall k :: d < k < |s| ==> s[k] != '.'
    ensures LastDot(s) == d
  {
  }

  lemma DotSuffixIsExtension(name: string, ext: string)
    requires '.' !in ext && EndsWith(name, "." + ext)
    ensures LastDot(name) == |name| - |ext| - 1 && name[LastDot(name) + 1..] == ext
  {
    var d := |name| - |ext| - 1;
    var tail := name[d..];
    assert tail == "." + ext;
    assert name[d] == tail[0] == '.';
    assert name[d + 1..] == tail[1..] == ext;
    forall k | d < k < |name| ensures name[k] != '.' {
      assert name[k] == ext[k - d - 1];
    }
    LastDotAt(name, d);
  }

  lemma ExtensionIsDotSuffix(name: string)
    requires LastDot(name) >= 0
    ensures EndsWith(name, "." + name[LastDot(name) + 1..])
  {
    var i := LastDot(name);
    assert name[i..] == [name[i]] + name[i + 1..];
  }

  /** The extensions the filter lets through. */
  predicate IsImageExtension(ext: string)
  {
    ext == "jpg" || ext == "jpeg" || ext == "png" || ext == "gif"
  }

  /** The extension an accepted name ends in. */
  lemma MatchedExtension(name: string) returns (ext: string)
    requires IsImageFilename(name)
    ensures IsImageExtension(ext) && '.' !in ext && EndsWith(name, "." + ext)
  {
    if EndsWith(name, ".jpg") {
      ext := "jpg";
      assert "." + ext == ".jpg";
    } else if EndsWith(name, ".jpeg") {
      ext := "jpeg";
      assert "." + ext == ".jpeg";
    } else if EndsWith(name, ".png") {
      ext := "png";
      assert "." + ext == ".png";
    } else {
      ext := "gif";
      assert "." + ext == ".gif";
    }
  }

  lemma ImageFilenameHasImageExtension(name: string)
    requires IsImageFilename(name)
    ensures LastDot(name) >= 0 && IsImageExtension(name[LastDot(name) + 1..])
  {
    var ext := MatchedExtension(name);
    DotSuffixIsExtension(name, ext);
  }

  lemma ImageExtensionIsImageFilename(name: string)
    requires LastDot(name) >= 0 && IsImageExtension(name[LastDot(name) + 1..])
    ensures IsImageFilename(name)
  {
    var ext := name[LastDot(name) + 1..];
    ExtensionIsDotSuffix(name);
    if ext == "jpg" {
      assert "." + ext == ".jpg";
    } else if ext == "jpeg" {
      assert "." + ext == ".jpeg";
    } else if ext == "png" {
      assert "." + ext == ".png";
    } else {
      assert "." + ext == ".gif";
    }
  }

  /** The filter accepts a name exactly when it has an extension (the text after its
      last dot) that is one of `jpg`, `jpeg`, `png`, `gif`, in lower case. */
  lemma ImageFilenameByExtension(name: string)
    ensures IsImageFilename(name) <==>
      (LastDot(name) >= 0 && IsImageExtension(name[LastDot(name) + 1..]))
  {
    if IsImageFilename(name) {
      ImageFilenameHasImageExtension(name);
    }
    if LastDot(name) >= 0 && IsImageExtension(name[LastDot(name) + 1..]) {
      ImageExtensionIsImageFilename(name);
    }
  }

  /** Upper-case extensions are refused. */
  lemma ImageFilenameCaseSensitive()
    ensures IsImageFilename("cat.jpg") && !IsImageFilename("cat.JPG")
    ensures IsImageFilename("cat.jpeg") && !IsImageFilename("cat.jpg.exe")
  {
  }

  /** What `GET /api/users/:username` answers for a known user. */
  datatype Profile = Profile(id: string, username: string, email: string, posts: seq<Post>, postCount: nat)

  /** `posts.filter(p => p.username === username)`. */
  function PostsBy(posts: seq<Post>, username: string): (r: seq<Post>)
    ensures forall p :: p in r ==> p.username == username
  {
    if posts == [] then []
    else (if posts[0].username == username then [posts[0]] else []) + PostsBy(posts[1..], username)
  }

  /** The filter keeps every post by `username` as often as it is stored, and no other. */
  lemma {:induction false} PostsByCounts(posts: seq<Post>, username: string, p: Post)
    ensures multiset(PostsBy(posts, username))[p] ==
      if p.username == username then multiset(posts)[p] else 0
  {
    if posts != [] {
      PostsByCounts(posts[1..], username, p);
      assert posts == [posts[0]] + posts[1..];
    }
  }

  /** The filter keeps stored order: filtering a concatenation concatenates the filtered parts. */
  lemma {:induction false} PostsByConcat(a: seq<Post>, b: seq<Post>, username: string)
    ensures PostsBy(a + b, username) == PostsBy(a, username) + PostsBy(b, username)
  {
    if a == [] {
      assert a + b == b;
    } else {
      var head := if a[0].username == username then [a[0]] else [];
      assert a + b == [a[0]] + (a[1..] + b);
      assert a == [a[0]] + a[1..];
      PostsByCons(a[0], a[1..] + b, username);
      PostsByCons(a[0], a[1..], username);
      PostsByConcat(a[1..], b, username);
      var x, y := PostsBy(a[1..], username), PostsBy(b, username);
      assert head + (x + y) == (head + x) + y;
    }
  }

  lemma PostsByCons(q: Post, s: seq<Post>, username: string)
    ensures PostsBy([q] + s, username) == (if q.username == username then [q] else []) + PostsBy(s, username)
  {
    assert ([q] + s)[0] == q && ([q] + s)[1..] == s;
  }

  /** No name likes the post twice and the counter is not below the number of likers. */
  predicate LikesConsistent(p: Post)
  {
    NoDuplicates(p.likedBy) && p.likes >= |p.likedBy|
  }

  /** Replacing one post by a consistent one keeps every post consistent. */
  lemma UpdateKeepsConsistent(s: seq<Post>, k: nat, p: Post)
    requires k < |s| && LikesConsistent(p)
    requires forall q :: q in s ==> LikesConsistent(q)
    ensures forall q :: q in s[k := p] ==> LikesConsistent(q)
  {
    forall q | q in s[k := p] ensures LikesConsistent(q) {
      var j :| 0 <= j < |s| && s[k := p][j] == q;
      if j != k {
        assert q == s[j];
      }
    }
  }

  /** The store: the posts array the handlers share, and the registered users. */
  class PostStore {
    var posts: seq<Post>
    const users: seq<User>

    /** What every handler keeps: no name likes a post twice, and the counter is never
        below the number of likers (so it is never negative). The counter need not equal
        the number of likers. */
    ghost predicate Valid()
      reads this
    {
      forall p :: p in posts ==> LikesConsistent(p)
    }

    /** The module-level `posts` and `users` arrays as the server starts. */
    constructor (postTime: int, commentTime: int)
      ensures Valid()
      ensures posts == [SeedPost(postTime, commentTime)] && users == [SeedUser]
    {
      posts := [SeedPost(postTime, commentTime)];
      users := [SeedUser];
    }

    /** `GET /api/posts`: sorts the stored array in place, most recent first, and
        answers with it. */
    method ListPosts() returns (sorted: seq<Post>)
      requires Valid()
      modifies this
      ensures Valid()
      ensures posts == FeedOrder.SortNewestFirst(old(posts)) && sorted == posts
      ensures FeedOrder.NewestFirst(posts) && multiset(posts) == multiset(old(posts))
      ensures FeedOrder.SameTies(posts, old(posts))
    {
      FeedOrder.SortNewestFirstCorrect(posts);
      ghost var before := posts;
      posts := FeedOrder.SortNewestFirst(posts);
      forall p | p in posts ensures p in before {
        assert p in multiset(posts);
      }
      sorted := posts;
    }

    /** `POST /api/posts`: `image` is the stored file's URL when an image was uploaded,
        `username` and `caption` the form fields (None when absent), `id` and `now` the
        generated identifier and the creation time. */
    method CreatePost(image: Option<string>, username: Option<string>, caption: Option<string>,
                      id: string, now: int) returns (reply: Reply<Post>)
      requires Valid()
      modifies this
      ensures Valid()
      ensures image.None? ==> reply == Failed(400, "No image file provided") && posts == old(posts)
      ensures image.Some? && (username.None? || username.value == "") ==>
        reply == Failed(400, "Username is required") && posts == old(posts)
      ensures image.Some? && username.Some? && username.value != "" ==>
        && reply.Ok? && reply.status == 201
        && posts == [reply.body] + old(posts)
        && reply.body == Post(id, username.value, image.value,
             if caption.Some? then caption.value else "", 0, [], now, [])
    {
      if image.None? {
        return Failed(400, "No image file provided");
      }
      if username.None? || username.value == "" {
        return Failed(400, "Username is required");
      }
      var newPost := Post(id, username.value, image.value,
        if caption.Some? && caption.value != "" then caption.value else "", 0, [], now, []);
      posts := [newPost] + posts;
      reply := Ok(201, newPost);
    }

    /** `POST /api/posts/:id/like`: toggles `username`'s like on the first post with
        that id, in place. */
    method ToggleLike(id: string, username: string) returns (reply: Reply<Post>)
      requires Valid()
      modifies this
      ensures Valid()
      ensures FindPost(old(posts), id).None? ==>
        reply == Failed(404, "Post not found") && posts == old(posts)
      ensures FindPost(old(posts), id).Some? ==>
        var k := FindPost(old(posts), id).value;
        && posts == old(posts)[k := Likes.Toggled(old(posts)[k], username)]
        && reply == Ok(200, posts[k])
        && posts[k].likes - |posts[k].likedBy| == old(posts)[k].likes - |old(posts)[k].likedBy|
    {
      var found := FindPost(posts, id);
      if found.None? {
        return Failed(404, "Post not found");
      }
      var k := found.value;
      var post := posts[k];
      var likedIndex := Likes.IndexOf(post.likedBy, username);
      if likedIndex > -1 {
        Likes.SpliceAtIndexOf(post.likedBy, username);
        post := post.(likedBy := post.likedBy[..likedIndex] + post.likedBy[likedIndex + 1..]);
        post := post.(likes := post.likes - 1);
      } else {
        post := post.(likedBy := post.likedBy + [username]);
        post := post.(likes := post.likes + 1);
      }
      assert post == Likes.Toggled(posts[k], username);
      assert LikesConsistent(post) by {
        assert posts[k] in posts;
        Likes.ToggleKeepsNoDuplicates(posts[k], username);
        Likes.ToggleKeepsLikeSurplus(posts[k], username);
      }
      UpdateKeepsConsistent(posts, k, post);
      posts := posts[k := post];
      reply := Ok(200, post);
    }

    /** `POST /api/posts/:id/comments`: appends a comment to the first post with that id.
        Neither `username` nor `text` is checked. */
    method AddComment(id: string, username: string, text: string, commentId: string, now: int)
      returns (reply: Reply<Comment>)
      requires Valid()
      modifies this
      ensures Valid()
      ensures FindPost(old(posts), id).None? ==>
        reply == Failed(404, "Post not found") && posts == old(posts)
      ensures FindPost(old(posts), id).Some? ==>
        var k := FindPost(old(posts), id).value;
        && reply == Ok(201, Comment(commentId, username, text, now))
        && posts == old(posts)[k := old(posts)[k].(comments := old(posts)[k].comments + [reply.body])]
    {
      var found := FindPost(posts, id);
      if found.None? {
        return Failed(404, "Post not found");
      }
      var k := found.value;
      var newComment := Comment(commentId, username, text, now);
      var post := posts[k].(comments := posts[k].comments + [newComment]);
      assert posts[k] in posts;
      UpdateKeepsConsistent(posts, k, post);
      posts := posts[k := post];
      reply := Ok(201, newComment);
    }

    /** `GET /api/users/:username`: the first registered user with that name, their
        posts in stored order, and how many there are. */
    function UserProfile(username: string): (r: Reply<Profile>)
      reads this
      ensures r.Failed? <==> forall u :: u in users ==> u.username != username
      ensures r.Failed? ==> r == Failed(404, "User not found")
      ensures r.Ok? ==>
        && r.status == 200 && r.body.username == username
        && r.body.posts == PostsBy(posts, username) && r.body.postCount == |r.body.posts|
        && User(r.body.id, r.body.username, r.body.email) in users
    {
      match Find(users, (u: User) => u.username == username)
      case None =>
        Failed(404, "User not found")
      case Some(k) =>
        var user := users[k];
        var userPosts := PostsBy(posts, username);
        Ok(200, Profile(user.id, user.username, user.email, userPosts, |userPosts|))
    }
  }

  /** Only the seeded user has a profile, whatever posts exist. */
  lemma OnlySeedUserHasProfile(store: PostStore, username: string)
    requires store.users == [SeedUser]
    ensures store.UserProfile(username).Ok? <==> username == "demo_user"
  {
    if username != "demo_user" {
      assert forall u :: u in store.users ==> u.username != username;
    }
  }

  /** Every post of a reachable store has a non-negative like counter. */
  lemma ValidLikesNonNegative(store: PostStore, p: Post)
    requires store.Valid() && p in store.posts
    ensures p.likes >= 0
  {
  }
}
