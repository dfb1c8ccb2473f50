/**
 * SearchManager: one term searched across the forum and the coalition. Each
 * call constructs fresh managers on the store, so it always sees what was
 * last persisted.
 */
module Search {
  import opened Wrappers
  import Text
  import Seqs
  import opened Entities
  import Forum
  import Coalition

  datatype SearchResults = SearchResults(posts: seq<Post>, members: seq<Member>, total: nat)

  /** `field?.toLowerCase().includes(t)`: an absent field does not match. */
  predicate FieldIncludes(field: Option<string>, t: string) {
    field.Some? && Text.Includes(Text.Lower(field.value), t)
  }

  /** The member's lower-cased institution name or state includes the lower-cased term. */
  predicate MemberMatches(m: Member, term: string): (b: bool)
    ensures var t := Text.Lower(term);
      b <==> || (m.institutionName.Some? && exists i :: Text.OccursAt(Text.Lower(m.institutionName.value), t, i))
             || (m.state.Some? && exists i :: Text.OccursAt(Text.Lower(m.state.value), t, i))
  {
    var t := Text.Lower(term);
    FieldIncludes(m.institutionName, t) || FieldIncludes(m.state, t)
  }

  /** searchAll: matching posts and matching members, in stored order, and how many in all. */
  function SearchAll(store: Store, term: string): (r: SearchResults)
    ensures r.total == |r.posts| + |r.members|
    ensures forall k :: 0 <= k < |r.posts| ==>
              r.posts[k] in Forum.Open(store).posts && Forum.Matches(r.posts[k], term)
    ensures forall j :: 0 <= j < |Forum.Open(store).posts| && Forum.Matches(Forum.Open(store).posts[j], term) ==>
              Forum.Open(store).posts[j] in r.posts
    ensures forall k :: 0 <= k < |r.members| ==>
              r.members[k] in Coalition.Open(store).members && MemberMatches(r.members[k], term)
    ensures forall j :: 0 <= j < |Coalition.Open(store).members| && MemberMatches(Coalition.Open(store).members[j], term) ==>
              Coalition.Open(store).members[j] in r.members
  {
    var forumResults := Forum.SearchPosts(Forum.Open(store), term);
    var memberResults := Seqs.Filter(Coalition.Open(store).members, m => MemberMatches(m, term));
    SearchResults(forumResults, memberResults, |forumResults| + |memberResults|)
  }

  /** Lower-casing the term first changes nothing: both searches compare lower-cased text. */
  lemma SearchAllCaseInsensitive(store: Store, term: string)
    ensures SearchAll(store, Text.Lower(term)) == SearchAll(store, term)
  {
    Text.LowerIdempotent(term);
    Forum.SearchCaseInsensitive(Forum.Open(store), term);
    Seqs.FilterCongruent(Coalition.Open(store).members, m => MemberMatches(m, Text.Lower(term)), m => MemberMatches(m, term));
  }

  /**
   * The post results are an order-preserving selection of the stored posts
   * that keeps a post if and only if it matches, so each match appears once
   * and in stored order.
   */
  lemma SearchAllSelectsPosts(store: Store, term: string) returns (idx: seq<int>)
    ensures var posts := Forum.Open(store).posts;
      && Seqs.Embeds(SearchAll(store, term).posts, posts, idx)
      && forall j :: 0 <= j < |posts| ==> (Forum.Matches(posts[j], term) <==> j in idx)
  {
    idx := Forum.SearchPostsSelects(Forum.Open(store), term);
  }

  /**
   * The member results are an order-preserving selection of the stored
   * members that keeps a member if and only if it matches.
   */
  lemma SearchAllSelectsMembers(store: Store, term: string) returns (idx: seq<int>)
    ensures var members := Coalition.Open(store).members;
      && Seqs.Embeds(SearchAll(store, term).members, members, idx)
      && forall j :: 0 <= j < |members| ==> (MemberMatches(members[j], term) <==> j in idx)
  {
    idx := Seqs.FilterSelects(Coalition.Open(store).members, m => MemberMatches(m, term));
  }

  /**
   * With the empty term every post is found, but a member is found only if it
   * has an institution name or a state: optional chaining on two absent
   * fields yields no match.
   */
  lemma SearchAllEmptyTerm(store: Store)
    ensures SearchAll(store, "").posts == Forum.Open(store).posts
    ensures forall m :: MemberMatches(m, "") <==> m.institutionName.Some? || m.state.Some?
  {
    Forum.SearchEmptyTerm(Forum.Open(store));
    forall m: Member ensures MemberMatches(m, "") <==> m.institutionName.Some? || m.state.Some? {
      if m.institutionName.Some? {
        Text.IncludesEmpty(Text.Lower(m.institutionName.value));
      }
      if m.state.Some? {
        Text.IncludesEmpty(Text.Lower(m.state.value));
      }
    }
  }

  /**
   * A search right after a post was added on an available store already sees
   * the new post, ahead of the earlier matches.
   */
  lemma SearchAllSeesNewPost(fm: Forum.ForumManager, store: Store, draft: PostDraft, now: int, today: string, term: string)
    requires store.Available?
    ensures var added := Forum.AddPost(fm, store, draft, now, today);
      SearchAll(added.store, term).posts
        == (if Forum.Matches(added.item, term) then [added.item] else []) + Forum.SearchPosts(fm, term)
  {
  }
}
