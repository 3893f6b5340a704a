/**
  The post feed: creating a post, and listing posts newest first, over all
  users or for one author.
 */
module Feed {
  import opened Seqs
  import opened Entities

  /** Newest first: creation times never increase along the sequence. */
  predicate NewestFirst(ps: seq<Post>) {
    forall i, j :: 0 <= i < j < |ps| ==> ps[i].createdAt >= ps[j].createdAt
  }

  /** Places `p` before the first post of `ps` that is not newer than it. */
  function Insert(p: Post, ps: seq<Post>): (r: seq<Post>)
    ensures multiset(r) == multiset(ps) + multiset{p}
  {
    if |ps| == 0 || p.createdAt >= ps[0].createdAt then [p] + ps
    else
      assert ps == [ps[0]] + ps[1..];
      [ps[0]] + Insert(p, ps[1..])
  }

  /** Inserting into a newest-first list keeps it newest first. */
  lemma {:induction false} InsertNewestFirst(p: Post, ps: seq<Post>)
    requires NewestFirst(ps)
    ensures NewestFirst(Insert(p, ps))
  {
    if |ps| > 0 && p.createdAt < ps[0].createdAt {
      var rest := Insert(p, ps[1..]);
      InsertNewestFirst(p, ps[1..]);
      forall k | 0 <= k < |rest|
        ensures rest[k].createdAt <= ps[0].createdAt
      {
        assert multiset(rest)[rest[k]] > 0;
        if rest[k] != p {
          assert multiset(ps[1..])[rest[k]] > 0;
          var m :| 0 <= m < |ps[1..]| && ps[1..][m] == rest[k];
          assert ps[m + 1] == rest[k];
        }
      }
      var r := [ps[0]] + rest;
      assert Insert(p, ps) == r;
      forall i, j | 0 <= i < j < |r|
        ensures r[i].createdAt >= r[j].createdAt
      {
        assert r[j] == rest[j - 1];
        if i > 0 {
          assert r[i] == rest[i - 1];
        }
      }
    }
  }

  /** Insertion sort by creation time, newest first. */
  function SortNewestFirst(ps: seq<Post>): (r: seq<Post>)
    ensures NewestFirst(r)
    ensures multiset(r) == multiset(ps)
  {
    if |ps| == 0 then []
    else
      assert ps == [ps[0]] + ps[1..];
      var rest := SortNewestFirst(ps[1..]);
      InsertNewestFirst(ps[0], rest);
      Insert(ps[0], rest)
  }

  /**
    Cutting a newest-first list after `n` posts drops no post newer than
    one that is kept.
   */
  lemma TakeKeepsNewest(ps: seq<Post>, n: nat, p: Post)
    requires NewestFirst(ps)
    requires p in ps && p !in Take(ps, n)
    ensures |Take(ps, n)| == n
    ensures forall q :: q in Take(ps, n) ==> q.createdAt >= p.createdAt
  {
  }

  /**
    `get_recent_posts`: at most `limit` posts of the store, newest first; a
    post left out is no newer than every post returned, and then exactly
    `limit` posts are returned.
   */
  function RecentPosts(s: Store, limit: nat): (r: seq<Post>)
    ensures NewestFirst(r)
    ensures |r| == if limit < |s.posts| then limit else |s.posts|
    ensures SubBag(r, s.posts)
    ensures forall p :: p in s.posts && p !in r ==> |r| == limit && forall q :: q in r ==> q.createdAt >= p.createdAt
  {
    var sorted := SortNewestFirst(s.posts);
    assert forall p :: p in s.posts <==> p in sorted by {
      forall p
        ensures p in s.posts <==> p in sorted
      {
        assert p in s.posts <==> multiset(s.posts)[p] > 0;
        assert p in sorted <==> multiset(sorted)[p] > 0;
      }
    }
    var r := Take(sorted, limit);
    assert forall p :: p in s.posts && p !in r ==> |r| == limit && forall q :: q in r ==> q.createdAt >= p.createdAt by {
      forall p | p in s.posts && p !in r
        ensures |r| == limit && forall q :: q in r ==> q.createdAt >= p.createdAt
      {
        TakeKeepsNewest(sorted, limit, p);
      }
    }
    r
  }

  /** The posts written by `user`, in table order. */
  function PostsOf(posts: seq<Post>, user: int): (r: seq<Post>)
    ensures forall p :: p in r <==> p in posts && p.userId == user
  {
    Filter(posts, (p: Post) => p.userId == user)
  }

  /**
    `get_posts_by_user`: at most `limit` of `user`'s posts, newest first; a
    post of `user` left out is no newer than every post returned, and then
    exactly `limit` posts are returned.
   */
  function PostsByUser(s: Store, user: int, limit: nat): (r: seq<Post>)
    ensures NewestFirst(r)
    ensures |r| <= limit
    ensures SubBag(r, s.posts)
    ensures forall p :: p in r ==> p.userId == user
    ensures forall p :: p in s.posts && p.userId == user && p !in r
              ==> |r| == limit && forall q :: q in r ==> q.createdAt >= p.createdAt
  {
    var mine := PostsOf(s.posts, user);
    var r := RecentPosts(s.(posts := mine), limit);
    assert forall p :: p in r ==> p in mine by {
      forall p | p in r
        ensures p in mine
      {
        assert multiset(r)[p] > 0;
      }
    }
    r
  }

  /**
    `create_post`: appends a post by `user` with the given content, stamped
    `now`, under a fresh identifier; nothing is checked and nothing else
    changes.
   */
  function CreatePost(s: Store, user: int, content: string, now: int): (r: Saved<Post>)
    ensures r.store.posts == s.posts + [r.row]
    ensures r.row.userId == user && r.row.content == content && r.row.createdAt == now
    ensures forall i :: 0 <= i < |s.posts| ==> s.posts[i].id < r.row.id
    ensures r.store.users == s.users && r.store.connections == s.connections
  {
    var row := Post(NextId(Ids(s.posts, (p: Post) => p.id)), user, content, now);
    Saved(s.(posts := s.posts + [row]), row)
  }

  /**
    A list drawn from the posts of `s` plus one post newer than all of them,
    that keeps every post newer than one it drops, holds the new post first.
   */
  lemma NewestHeads(s: Store, row: Post, r: seq<Post>, limit: nat)
    requires limit >= 1 && |r| >= 1 && NewestFirst(r)
    requires forall p :: p in s.posts ==> p.createdAt < row.createdAt
    requires SubBag(r, s.posts + [row])
    requires row !in r ==> |r| == limit && forall q :: q in r ==> q.createdAt >= row.createdAt
    ensures r[0] == row
  {
    forall q | q in r && q != row
      ensures q.createdAt < row.createdAt
    {
      assert multiset(r)[q] > 0;
      assert q in s.posts + [row];
      assert q in s.posts;
    }
    assert row in r;
    var k :| 0 <= k < |r| && r[k] == row;
    assert r[0].createdAt >= r[k].createdAt;
  }

  /**
    A post created later than every stored post heads the feed and heads its
    author's posts, for any positive limit.
   */
  lemma NewPostHeadsFeed(s: Store, user: int, content: string, now: int, limit: nat)
    requires limit >= 1
    requires forall p :: p in s.posts ==> p.createdAt < now
    ensures var saved := CreatePost(s, user, content, now);
            RecentPosts(saved.store, limit)[0] == saved.row
            && PostsByUser(saved.store, user, limit)[0] == saved.row
  {
    var saved := CreatePost(s, user, content, now);
    var s1 := saved.store;
    var row := saved.row;
    assert row in s1.posts;
    var r := RecentPosts(s1, limit);
    NewestHeads(s, row, r, limit);
    var mine := PostsByUser(s1, user, limit);
    assert row in s1.posts && row.userId == user;
    NewestHeads(s, row, mine, limit);
  }
}
