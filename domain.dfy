/** The records the API stores and the client keeps in its local state. */
module Domain {

  datatype Option<+T> = None | Some(value: T)

  /** A handler's answer: an HTTP status with a JSON body, or an HTTP status with
      the `{ error }` message the handler sends. */
  datatype Reply<+T> = Ok(status: nat, body: T) | Failed(status: nat, error: string)

  /** A comment embedded in its post. Timestamps are milliseconds since the epoch,
      the value `new Date(timestamp)` denotes. */
  datatype Comment = Comment(id: string, username: string, text: string, timestamp: int)

  /** A post. `likes` is a counter kept beside `likedBy`; nothing makes the two agree. */
  datatype Post = Post(
    id: string,
    username: string,
    imageUrl: string,
    caption: string,
    likes: int,
    likedBy: seq<string>,
    timestamp: int,
    comments: seq<Comment>)

  /** A registered user of the API. */
  datatype User = User(id: string, username: string, email: string)

  predicate NoDuplicates(s: seq<string>)
  {
    forall i, j :: 0 <= i < j < |s| ==> s[i] != s[j]
  }

  /** A duplicate-free list is its head followed by a duplicate-free tail without it. */
  lemma NoDuplicatesTail(s: seq<string>)
    requires NoDuplicates(s) && s != []
    ensures NoDuplicates(s[1..]) && s[0] !in s[1..]
  {
    var tail := s[1..];
    forall i, j | 0 <= i < j < |tail| ensures tail[i] != tail[j] {
      assert tail[i] == s[i + 1] && tail[j] == s[j + 1];
    }
    forall j | 0 <= j < |tail| ensures tail[j] != s[0] {
      assert tail[j] == s[j + 1];
    }
  }

  lemma NoDuplicatesCons(x: string, s: seq<string>)
    requires NoDuplicates(s) && x !in s
    ensures NoDuplicates([x] + s)
  {
    var t := [x] + s;
    forall i, j | 0 <= i < j < |t| ensures t[i] != t[j] {
      assert t[j] == s[j - 1];
      if i > 0 {
        assert t[i] == s[i - 1];
      }
    }
  }

  /** `Array.prototype.find`, as the index of the element it finds. */
  function Find<T>(s: seq<T>, matches: T -> bool): (k: Option<nat>)
    ensures k.None? <==> forall j :: 0 <= j < |s| ==> !matches(s[j])
    ensures k.Some? ==> k.value < |s| && matches(s[k.value])
    ensures k.Some? ==> forall j :: 0 <= j < k.value ==> !matches(s[j])
  {
    if s == [] then None
    else if matches(s[0]) then Some(0)
    else match Find(s[1..], matches)
      case None => None
      case Some(j) => Some(j + 1)
  }

  /** `posts.find(p => p.id === id)`. */
  function FindPost(posts: seq<Post>, id: string): Option<nat>
  {
    Find(posts, (p: Post) => p.id == id)
  }
}
