/** The client's local state merges: how the feed list changes after a login, a new
    post, a like and a comment. The server's answer is a parameter (None when the request
    failed, which leaves the list as it was). */
module App {
  import opened Domain
  import opened Text
  import Likes
  import PostView

  /** The logged-in user the client records. */
  datatype Session = Session(username: string, email: string)

  const EmailDomain := "@example.com"

  /** `handleLogin`. */
  function Login(username: string): Session
  {
    Session(username, username + EmailDomain)
  }

  /** The derived email is the username with the fixed domain, and gives the username back. */
  lemma LoginEmail(username: string)
    ensures var s := Login(username);
      && s.username == username
      && EndsWith(s.email, EmailDomain)
      && s.email[..|s.email| - |EmailDomain|] == username
  {
  }

  /** `handlePostCreated`: the created post goes in front of the list. */
  function PostCreated(posts: seq<Post>, newPost: Post): (r: seq<Post>)
    ensures |r| == |posts| + 1 && r[0] == newPost && r[1..] == posts
  {
    [newPost] + posts
  }

  /** A request the client sends to the API. */
  datatype Request =
    | LikeRequest(postId: string, username: string)
    | CommentRequest(postId: string, username: string, text: string)

  /** A handler's effect: the request it sends, if any, and the new local post list. */
  datatype Update = Update(request: Option<Request>, posts: seq<Post>)

  /** `posts.map(post => post.id === postId ? updated : post)`. */
  function ReplaceById(posts: seq<Post>, postId: string, updated: Post): (r: seq<Post>)
    ensures |r| == |posts|
    ensures forall i :: 0 <= i < |posts| ==> r[i] == if posts[i].id == postId then updated else posts[i]
  {
    if posts == [] then []
    else [if posts[0].id == postId then updated else posts[0]] + ReplaceById(posts[1..], postId, updated)
  }

  /** `posts.map(post => post.id === postId ? { ...post, comments: [...post.comments, c] } : post)`. */
  function AppendCommentById(posts: seq<Post>, postId: string, c: Comment): (r: seq<Post>)
    ensures |r| == |posts|
    ensures forall i :: 0 <= i < |posts| ==>
      r[i] == if posts[i].id == postId then posts[i].(comments := posts[i].comments + [c]) else posts[i]
  {
    if posts == [] then []
    else
      var p := posts[0];
      [if p.id == postId then p.(comments := p.comments + [c]) else p]
        + AppendCommentById(posts[1..], postId, c)
  }

  /** `handleLikePost`: with nobody logged in nothing is sent and nothing changes. */
  function LikePost(user: Option<Session>, posts: seq<Post>, postId: string, response: Option<Post>): (u: Update)
    ensures user.None? ==> u == Update(None, posts)
    ensures user.Some? ==> u.request == Some(LikeRequest(postId, user.value.username))
    ensures |u.posts| == |posts|
    ensures forall i :: 0 <= i < |posts| && (posts[i].id != postId || response.None?) ==> u.posts[i] == posts[i]
    ensures user.Some? && response.Some? ==>
      forall i :: 0 <= i < |posts| && posts[i].id == postId ==> u.posts[i] == response.value
  {
    if user.None? then Update(None, posts)
    else
      var request := LikeRequest(postId, user.value.username);
      match response
      case None => Update(Some(request), posts)
      case Some(post) => Update(Some(request), ReplaceById(posts, postId, post))
  }

  /** `handleAddComment`: with nobody logged in, or a comment that trims to nothing,
      nothing is sent and nothing changes; otherwise the trimmed text is sent. */
  function AddComment(user: Option<Session>, posts: seq<Post>, postId: string, commentText: string,
                      response: Option<Comment>): (u: Update)
    ensures user.None? || IsBlank(commentText) ==> u == Update(None, posts)
    ensures user.Some? && !IsBlank(commentText) ==>
      u.request == Some(CommentRequest(postId, user.value.username, Trim(commentText)))
    ensures |u.posts| == |posts|
    ensures forall i :: 0 <= i < |posts| && (posts[i].id != postId || response.None?) ==> u.posts[i] == posts[i]
    ensures user.Some? && !IsBlank(commentText) && response.Some? ==>
      forall i :: 0 <= i < |posts| && posts[i].id == postId ==>
        u.posts[i] == posts[i].(comments := posts[i].comments + [response.value])
  {
    TrimEmptyIffBlank(commentText);
    if user.None? || Trim(commentText) == "" then Update(None, posts)
    else
      var request := CommentRequest(postId, user.value.username, Trim(commentText));
      match response
      case None => Update(Some(request), posts)
      case Some(c) => Update(Some(request), AppendCommentById(posts, postId, c))
  }

  /** No two posts share an id. */
  predicate UniqueIds(posts: seq<Post>)
  {
    forall i, j :: 0 <= i < j < |posts| ==> posts[i].id != posts[j].id
  }

  /** When the client's list equals the store and ids are unique, merging the like
      response leaves the client equal to the store after its toggle. */
  lemma LikeKeepsClientInSync(posts: seq<Post>, user: Session, postId: string)
    requires UniqueIds(posts)
    requires FindPost(posts, postId).Some?
    ensures var k := FindPost(posts, postId).value;
      var stored := posts[k := Likes.Toggled(posts[k], user.username)];
      LikePost(Some(user), posts, postId, Some(stored[k])).posts == stored
  {
    var k := FindPost(posts, postId).value;
    var stored := posts[k := Likes.Toggled(posts[k], user.username)];
    var merged := LikePost(Some(user), posts, postId, Some(stored[k])).posts;
    forall i | 0 <= i < |posts| ensures merged[i] == stored[i] {
      if i != k {
        assert posts[i].id != postId;
      }
    }
  }

  /** The same for a comment: appending the response to the matching post reproduces
      the store's append. */
  lemma CommentKeepsClientInSync(posts: seq<Post>, user: Session, postId: string, text: string, c: Comment)
    requires UniqueIds(posts) && !IsBlank(text)
    requires FindPost(posts, postId).Some?
    ensures var k := FindPost(posts, postId).value;
      var stored := posts[k := posts[k].(comments := posts[k].comments + [c])];
      AddComment(Some(user), posts, postId, text, Some(c)).posts == stored
  {
    var k := FindPost(posts, postId).value;
    var stored := posts[k := posts[k].(comments := posts[k].comments + [c])];
    var merged := AddComment(Some(user), posts, postId, text, Some(c)).posts;
    forall i | 0 <= i < |posts| ensures merged[i] == stored[i] {
      if i != k {
        assert posts[i].id != postId;
      }
    }
  }

  /** Without unique ids the two drift apart: the store toggles only the first post
      with the id, the client overwrites every post with it. */
  lemma DuplicateIdsDesync(a: Post, b: Post, user: Session)
    requires a.id == b.id && a.likes == b.likes
    ensures var posts := [a, b];
      var stored := posts[0 := Likes.Toggled(a, user.username)];
      LikePost(Some(user), posts, a.id, Some(stored[0])).posts != stored
  {
    var posts := [a, b];
    var stored := posts[0 := Likes.Toggled(a, user.username)];
    var merged := LikePost(Some(user), posts, a.id, Some(stored[0])).posts;
    assert merged[1] == stored[0];
    assert stored[1] == b && stored[0].likes != b.likes;
  }

  /** A comment the post card submits while someone is logged in is always sent on, with
      the trimmed text; the card's guard and the app's guard agree. */
  lemma SubmittedCommentIsSent(user: Session, posts: seq<Post>, postId: string, draft: string,
                               response: Option<Comment>)
    requires PostView.CommentSubmit(draft).sent.Some?
    ensures var text := PostView.CommentSubmit(draft).sent.value;
      AddComment(Some(user), posts, postId, text, response).request
        == Some(CommentRequest(postId, user.username, Trim(draft)))
  {
    PostView.CommentSubmitGuard(draft);
  }
}
