/**
 * The records the managers keep, the payloads their operations receive, and
 * the store they persist to.
 *
 * Every creating operation except addNotification builds its record as
 * `{ id: now, ...payload, <stamped fields> }`. A draft therefore carries,
 * besides the fields the core reads, an optional `id` (which wins over the
 * clock, since it is spread after it) and optional values for every stamped
 * field (which lose, since the stamps are written after the spread).
 * `details` holds the remaining payload fields, which the core carries but
 * never reads.
 */
module Entities {
  import opened Wrappers
  import Storage

  /**
   * Payload fields the core carries unchanged and never reads. It never holds
   * a key named by a typed field of the record (`id`, `date`, `joinDate`,
   * `status`, ...): those payload fields live in the draft's own fields, where
   * the stamps override them as the spread does.
   */
  type Details = map<string, string>

  /** Reaction kind to count; a kind with no entry counts as 0. */
  type Reactions = map<string, int>

  datatype Post = Post(
    id: int,
    author: string,
    category: string,
    subject: string,
    content: string,
    details: Details,
    date: string,
    reactions: Reactions,
    replies: seq<string>)

  datatype PostDraft = PostDraft(
    id: Option<int>,
    author: string,
    category: string,
    subject: string,
    content: string,
    details: Details,
    date: Option<string>,
    reactions: Option<Reactions>,
    replies: Option<seq<string>>)

  /** A coalition member; both text fields may be absent (they are read with `?.`). */
  datatype Member = Member(
    id: int,
    institutionName: Option<string>,
    state: Option<string>,
    details: Details,
    joinDate: string,
    verified: bool)

  datatype MemberDraft = MemberDraft(
    id: Option<int>,
    institutionName: Option<string>,
    state: Option<string>,
    details: Details,
    joinDate: Option<string>,
    verified: Option<bool>)

  datatype Campaign = Campaign(
    id: int,
    details: Details,
    startDate: string,
    supporters: int,
    status: string)

  datatype CampaignDraft = CampaignDraft(
    id: Option<int>,
    details: Details,
    startDate: Option<string>,
    supporters: Option<int>,
    status: Option<string>)

  datatype Inspection = Inspection(
    id: int,
    details: Details,
    submittedDate: string)

  datatype InspectionDraft = InspectionDraft(
    id: Option<int>,
    details: Details,
    submittedDate: Option<string>)

  datatype Proposal = Proposal(
    id: int,
    details: Details,
    createdDate: string,
    status: string,
    supporters: int)

  datatype ProposalDraft = ProposalDraft(
    id: Option<int>,
    details: Details,
    createdDate: Option<string>,
    status: Option<string>,
    supporters: Option<int>)

  /** Built from explicit arguments, not from a spread payload. */
  datatype Notification = Notification(
    id: int,
    kind: string,
    message: string,
    importance: string,
    timestamp: string,
    read: bool)

  /** A persisted value: one whole collection. */
  datatype Doc =
    | PostList(posts: seq<Post>)
    | MemberList(members: seq<Member>)
    | CampaignList(campaigns: seq<Campaign>)
    | InspectionList(inspections: seq<Inspection>)
    | ProposalList(proposals: seq<Proposal>)
    | NotificationList(notifications: seq<Notification>)

  type Store = Storage.Backend<Doc>

  const ForumPostsKey: string := "forum_posts"
  const MembersKey: string := "coalition_members"
  const CampaignsKey: string := "campaigns"
  const InspectionsKey: string := "inspections"
  const ProposalsKey: string := "proposals"
  const NotificationsKey: string := "notifications"

  /** The outcome of a creating operation: the manager, the store, and the new record. */
  datatype Added<M, E> = Added(manager: M, store: Store, item: E)

  /** The outcome of an operation that returns nothing: the manager and the store. */
  datatype Updated<M> = Updated(manager: M, store: Store)
}
