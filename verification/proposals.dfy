/** ProposalGenerator: reform proposals persisted as a whole under "proposals". */
module Proposals {
  import Storage
  import opened Entities

  datatype ProposalGenerator = ProposalGenerator(proposals: seq<Proposal>)

  /** The constructor: load the proposals, an empty list when there are none. */
  function Open(store: Store): (pg: ProposalGenerator)
    ensures Storage.Get(store, ProposalsKey).None? ==> pg.proposals == []
    ensures var v := Storage.Get(store, ProposalsKey);
      v.Some? ==> pg.proposals == (if v.value.ProposalList? then v.value.proposals else [])
  {
    match Storage.Load(store, ProposalsKey, ProposalList([]))
    case ProposalList(xs) => ProposalGenerator(xs)
    case _ => ProposalGenerator([])
  }

  /** saveProposal: stamp the draft as a draft with one supporter, append it, persist. */
  function SaveProposal(pg: ProposalGenerator, store: Store, draft: ProposalDraft, now: int, today: string)
    : (r: Added<ProposalGenerator, Proposal>)
    ensures r.item.id == draft.id.GetOr(now)
    ensures r.item.details == draft.details && r.item.createdDate == today
    ensures r.item.status == "draft" && r.item.supporters == 1
    ensures r.manager.proposals == pg.proposals + [r.item]
    ensures store.Available? ==> Open(r.store) == r.manager
    ensures Storage.UnchangedExcept(store, r.store, ProposalsKey)
    ensures store.Unavailable? ==> r.store == store
  {
    var proposal := Proposal(draft.id.GetOr(now), draft.details, today, "draft", 1);
    var pg' := ProposalGenerator(pg.proposals + [proposal]);
    Added(pg', Storage.Save(store, ProposalsKey, ProposalList(pg'.proposals)), proposal)
  }
}
