/**
 * ForumManager: the forum's posts, newest first, persisted as a whole under
 * "forum_posts" after every change.
 */
module Forum {
  import opened Wrappers
  import Storage
  import Text
  import Seqs
  import opened Entities

  datatype ForumManager = ForumManager(posts: seq<Post>)

  /** The constructor: load the posts, an empty list when there are none. */
  function Open(store: Store): (fm: ForumManager)
    ensures Storage.Get(store, ForumPostsKey).None? ==> fm.posts == []
    ensures var v := Storage.Get(store, ForumPostsKey);
      v.Some? ==> fm.posts == (if v.value.PostList? then v.value.posts else [])
  {
    match Storage.Load(store, ForumPostsKey, PostList([]))
    case PostList(ps) => ForumManager(ps)
    case _ => ForumManager([])
  }

  /** A manager constructed on `store` now would hold exactly `fm`'s posts. */
  predicate InSync(fm: ForumManager, store: Store) {
    store.Available? ==> Open(store) == fm
  }

  /** Write the whole post list back under "forum_posts". */
  function Persist(fm: ForumManager, store: Store): (store': Store)
    ensures InSync(fm, store')
    ensures Storage.UnchangedExcept(store, store', ForumPostsKey)
    ensures store.Unavailable? ==> store' == store
  {
    Storage.Save(store, ForumPostsKey, PostList(fm.posts))
  }

  /** The three reaction kinds a new post starts with. */
  const ReactionKinds: set<string> := {"support", "helpful", "concerned"}

  const NoReactions: Reactions := map["support" := 0, "helpful" := 0, "concerned" := 0]

  /** `reactions[kind] || 0`. */
  function ReactionCount(rs: Reactions, kind: string): int {
    if kind in rs then rs[kind] else 0
  }

  /** addPost: stamp the draft, put it in front, persist the whole list. */
  function AddPost(fm: ForumManager, store: Store, draft: PostDraft, now: int, today: string)
    : (r: Added<ForumManager, Post>)
    ensures r.item.id == draft.id.GetOr(now)
    ensures r.item.author == draft.author && r.item.category == draft.category
    ensures r.item.subject == draft.subject && r.item.content == draft.content
    ensures r.item.details == draft.details
    ensures r.item.date == today && r.item.replies == []
    ensures r.item.reactions.Keys == ReactionKinds
    ensures forall k :: ReactionCount(r.item.reactions, k) == 0
    ensures |r.manager.posts| == |fm.posts| + 1
    ensures r.manager.posts[0] == r.item
    ensures r.manager.posts[1..] == fm.posts
    ensures InSync(r.manager, r.store)
    ensures Storage.UnchangedExcept(store, r.store, ForumPostsKey)
    ensures store.Unavailable? ==> r.store == store
  {
    var post := Post(draft.id.GetOr(now), draft.author, draft.category, draft.subject,
                     draft.content, draft.details, today, NoReactions, []);
    var fm' := ForumManager([post] + fm.posts);
    Added(fm', Persist(fm', store), post)
  }

  /** Position `i` holds the first post whose id is `id` (`Array.prototype.find`). */
  predicate IsFirstWithId(posts: seq<Post>, i: int, id: int) {
    && 0 <= i < |posts|
    && posts[i].id == id
    && forall j :: 0 <= j < i ==> posts[j].id != id
  }

  function FindFirst(posts: seq<Post>, id: int): (r: Option<nat>)
    ensures r.Some? ==> IsFirstWithId(posts, r.value, id)
    ensures r.None? ==> forall j :: 0 <= j < |posts| ==> posts[j].id != id
    decreases |posts|
  {
    if posts == [] then None
    else if posts[0].id == id then Some(0)
    else
      match FindFirst(posts[1..], id)
      case Some(i) =>
        assert forall j :: 1 <= j <= i ==> posts[j] == posts[1..][j - 1];
        Some(i + 1)
      case None =>
        assert forall j :: 1 <= j < |posts| ==> posts[j] == posts[1..][j - 1];
        None
  }

  /** `reactions[kind] = (reactions[kind] || 0) + 1`. */
  function Bump(rs: Reactions, kind: string): (rs': Reactions)
    ensures kind in rs'
    ensures ReactionCount(rs', kind) == ReactionCount(rs, kind) + 1
    ensures forall k :: k != kind ==> (k in rs' <==> k in rs)
    ensures forall k :: k != kind ==> ReactionCount(rs', k) == ReactionCount(rs, k)
  {
    rs[kind := ReactionCount(rs, kind) + 1]
  }

  /**
   * `posts'` is `posts` with one more `kind` counted on post `i`: its other
   * kinds, its other fields and every other post are unchanged.
   */
  ghost predicate ReactedAt(posts: seq<Post>, posts': seq<Post>, i: int, kind: string) {
    && 0 <= i < |posts| == |posts'|
    && (forall j :: 0 <= j < |posts| && j != i ==> posts'[j] == posts[j])
    && posts'[i] == posts[i].(reactions := posts'[i].reactions)
    && ReactionCount(posts'[i].reactions, kind) == ReactionCount(posts[i].reactions, kind) + 1
    && (forall k :: k != kind ==> (k in posts'[i].reactions <==> k in posts[i].reactions))
    && (forall k :: k != kind ==>
          ReactionCount(posts'[i].reactions, k) == ReactionCount(posts[i].reactions, k))
  }

  /**
   * addReaction: count one more `kind` on the first post with id `postId`
   * and persist; nothing at all happens when no post has that id.
   */
  function AddReaction(fm: ForumManager, store: Store, postId: int, kind: string): (r: Updated<ForumManager>)
    ensures (forall j :: 0 <= j < |fm.posts| ==> fm.posts[j].id != postId) ==>
              r.manager == fm && r.store == store
    ensures forall i :: IsFirstWithId(fm.posts, i, postId) ==>
              && ReactedAt(fm.posts, r.manager.posts, i, kind)
              && InSync(r.manager, r.store)
              && Storage.UnchangedExcept(store, r.store, ForumPostsKey)
    ensures store.Unavailable? ==> r.store == store
  {
    match FindFirst(fm.posts, postId)
    case None => Updated(fm, store)
    case Some(i) =>
      var post := fm.posts[i];
      var fm' := ForumManager(fm.posts[i := post.(reactions := Bump(post.reactions, kind))]);
      Updated(fm', Persist(fm', store))
  }

  /** The post's lower-cased subject, content or category includes the lower-cased term. */
  predicate Matches(p: Post, term: string): (b: bool)
    ensures var t := Text.Lower(term);
      b <==> exists i :: || Text.OccursAt(Text.Lower(p.subject), t, i)
                         || Text.OccursAt(Text.Lower(p.content), t, i)
                         || Text.OccursAt(Text.Lower(p.category), t, i)
  {
    var t := Text.Lower(term);
    || Text.Includes(Text.Lower(p.subject), t)
    || Text.Includes(Text.Lower(p.content), t)
    || Text.Includes(Text.Lower(p.category), t)
  }

  /** searchPosts: the matching posts, in list order. */
  function SearchPosts(fm: ForumManager, term: string): (r: seq<Post>)
    ensures |r| <= |fm.posts|
    ensures forall k :: 0 <= k < |r| ==> r[k] in fm.posts && Matches(r[k], term)
    ensures forall j :: 0 <= j < |fm.posts| && Matches(fm.posts[j], term) ==> fm.posts[j] in r
  {
    Seqs.Filter(fm.posts, p => Matches(p, term))
  }

  /**
   * searchPosts is an order-preserving filter that keeps exactly the matching
   * posts: the result sits in the post list at increasing positions `idx`,
   * and a position is among them if and only if its post matches.
   */
  lemma SearchPostsSelects(fm: ForumManager, term: string) returns (idx: seq<int>)
    ensures Seqs.Embeds(SearchPosts(fm, term), fm.posts, idx)
    ensures forall j :: 0 <= j < |fm.posts| ==> (Matches(fm.posts[j], term) <==> j in idx)
  {
    idx := Seqs.FilterSelects(fm.posts, p => Matches(p, term));
  }

  /** The empty term returns every post, in order. */
  lemma SearchEmptyTerm(fm: ForumManager)
    ensures SearchPosts(fm, "") == fm.posts
  {
    forall p: Post ensures Matches(p, "") {
      Text.IncludesEmpty(Text.Lower(p.subject));
    }
    Seqs.FilterKeepsAll(fm.posts, p => Matches(p, ""));
  }

  /** The search ignores the case of the term. */
  lemma SearchCaseInsensitive(fm: ForumManager, term: string)
    ensures SearchPosts(fm, Text.Lower(term)) == SearchPosts(fm, term)
  {
    Text.LowerIdempotent(term);
    Seqs.FilterCongruent(fm.posts, p => Matches(p, Text.Lower(term)), p => Matches(p, term));
  }

  /** Every post has all three reaction kinds, and no count is negative. */
  predicate ReactionsValid(fm: ForumManager) {
    forall i :: 0 <= i < |fm.posts| ==>
      && ReactionKinds <= fm.posts[i].reactions.Keys
      && forall k :: k in fm.posts[i].reactions ==> fm.posts[i].reactions[k] >= 0
  }

  /** Adding a post keeps every post's reactions valid. */
  lemma AddPostKeepsReactionsValid(fm: ForumManager, store: Store, draft: PostDraft, now: int, today: string)
    requires ReactionsValid(fm)
    ensures ReactionsValid(AddPost(fm, store, draft, now, today).manager)
  {
  }

  /** Reacting keeps every post's reactions valid. */
  lemma AddReactionKeepsReactionsValid(fm: ForumManager, store: Store, postId: int, kind: string)
    requires ReactionsValid(fm)
    ensures ReactionsValid(AddReaction(fm, store, postId, kind).manager)
  {
  }

  /** `n` reactions of the same kind on the same post id, one after another. */
  function ReactTimes(fm: ForumManager, store: Store, postId: int, kind: string, n: nat): Updated<ForumManager>
    decreases n
  {
    if n == 0 then Updated(fm, store)
    else
      var r := AddReaction(fm, store, postId, kind);
      ReactTimes(r.manager, r.store, postId, kind, n - 1)
  }

  /**
   * `posts'` is `posts` with `n` more `kind` counted on post `i`: its other
   * kinds and every other post are unchanged.
   */
  ghost predicate CountedAt(posts: seq<Post>, posts': seq<Post>, i: int, kind: string, n: int) {
    && 0 <= i < |posts| == |posts'|
    && ReactionCount(posts'[i].reactions, kind) == ReactionCount(posts[i].reactions, kind) + n
    && (forall k :: k != kind ==>
          ReactionCount(posts'[i].reactions, k) == ReactionCount(posts[i].reactions, k))
    && (forall j :: 0 <= j < |posts| && j != i ==> posts'[j] == posts[j])
  }

  /** One reaction followed by `n` more is `n + 1` reactions. */
  lemma CountedAfterReacted(a: seq<Post>, b: seq<Post>, c: seq<Post>, i: int, kind: string, n: int)
    requires ReactedAt(a, b, i, kind) && CountedAt(b, c, i, kind, n)
    ensures CountedAt(a, c, i, kind, n + 1)
  {
  }

  /** A reaction to the first post with an id counts on it, and it stays the first post with that id. */
  lemma ReactionStep(fm: ForumManager, store: Store, postId: int, kind: string, i: int)
    requires IsFirstWithId(fm.posts, i, postId)
    ensures ReactedAt(fm.posts, AddReaction(fm, store, postId, kind).manager.posts, i, kind)
    ensures IsFirstWithId(AddReaction(fm, store, postId, kind).manager.posts, i, postId)
  {
    var posts' := AddReaction(fm, store, postId, kind).manager.posts;
    assert ReactedAt(fm.posts, posts', i, kind);
    assert posts'[i].id == fm.posts[i].id;
  }

  /**
   * Reacting `n` times to an existing post id raises that post's count of
   * `kind` by exactly `n` and leaves its other kinds and every other post as they were.
   */
  lemma {:induction false} ReactTimesCounts(fm: ForumManager, store: Store, postId: int, kind: string, n: nat, i: int)
    requires IsFirstWithId(fm.posts, i, postId)
    ensures CountedAt(fm.posts, ReactTimes(fm, store, postId, kind, n).manager.posts, i, kind, n)
    decreases n
  {
    if n > 0 {
      var r := AddReaction(fm, store, postId, kind);
      var rest := ReactTimes(r.manager, r.store, postId, kind, n - 1);
      assert ReactTimes(fm, store, postId, kind, n) == rest;
      ReactionStep(fm, store, postId, kind, i);
      ReactTimesCounts(r.manager, r.store, postId, kind, n - 1, i);
      CountedAfterReacted(fm.posts, r.manager.posts, rest.manager.posts, i, kind, n - 1);
    }
  }

  /**
   * The lost update of whole-list persistence: two managers constructed on the
   * same store each add a post; the second save overwrites the first, so the
   * stored list holds only the second post on top of the original ones.
   */
  lemma LostUpdate(store: Store, d1: PostDraft, d2: PostDraft, now1: int, now2: int, today: string)
    requires store.Available?
    ensures var first := AddPost(Open(store), store, d1, now1, today);
            var second := AddPost(Open(store), first.store, d2, now2, today);
            && Open(second.store).posts == [second.item] + Open(store).posts
            && |Open(second.store).posts| == |Open(store).posts| + 1
  {
  }
}
