/**
 * CoalitionManager: members and campaigns, each list persisted as a whole
 * under its own key, and the three figures the page displays about them.
 */
module Coalition {
  import opened Wrappers
  import Storage
  import Seqs
  import opened Entities

  datatype CoalitionManager = CoalitionManager(members: seq<Member>, campaigns: seq<Campaign>)

  /** The figures `updateStats` displays. */
  datatype Stats = Stats(memberCount: nat, statesCount: nat, campaignsCount: nat)

  function LoadMembers(store: Store): (ms: seq<Member>)
    ensures Storage.Get(store, MembersKey).None? ==> ms == []
    ensures var v := Storage.Get(store, MembersKey);
      v.Some? ==> ms == (if v.value.MemberList? then v.value.members else [])
  {
    match Storage.Load(store, MembersKey, MemberList([]))
    case MemberList(ms) => ms
    case _ => []
  }

  function LoadCampaigns(store: Store): (cs: seq<Campaign>)
    ensures Storage.Get(store, CampaignsKey).None? ==> cs == []
    ensures var v := Storage.Get(store, CampaignsKey);
      v.Some? ==> cs == (if v.value.CampaignList? then v.value.campaigns else [])
  {
    match Storage.Load(store, CampaignsKey, CampaignList([]))
    case CampaignList(cs) => cs
    case _ => []
  }

  /** The constructor: load both lists, each empty when missing. */
  function Open(store: Store): (cm: CoalitionManager)
    ensures store.Unavailable? ==> cm.members == [] && cm.campaigns == []
    ensures Storage.Get(store, MembersKey).None? ==> cm.members == []
    ensures var v := Storage.Get(store, MembersKey);
      v.Some? ==> cm.members == (if v.value.MemberList? then v.value.members else [])
    ensures Storage.Get(store, CampaignsKey).None? ==> cm.campaigns == []
    ensures var v := Storage.Get(store, CampaignsKey);
      v.Some? ==> cm.campaigns == (if v.value.CampaignList? then v.value.campaigns else [])
  {
    CoalitionManager(LoadMembers(store), LoadCampaigns(store))
  }

  /** A manager constructed on `store` now would hold exactly `cm`'s lists. */
  predicate InSync(cm: CoalitionManager, store: Store) {
    store.Available? ==> Open(store) == cm
  }

  /** addMember: stamp the draft, append it, persist the member list. */
  function AddMember(cm: CoalitionManager, store: Store, draft: MemberDraft, now: int, today: string)
    : (r: Added<CoalitionManager, Member>)
    ensures r.item.id == draft.id.GetOr(now)
    ensures r.item.institutionName == draft.institutionName && r.item.state == draft.state
    ensures r.item.details == draft.details
    ensures r.item.joinDate == today && !r.item.verified
    ensures r.manager.members == cm.members + [r.item]
    ensures r.manager.campaigns == cm.campaigns
    ensures store.Available? ==> LoadMembers(r.store) == r.manager.members
    ensures InSync(cm, store) ==> InSync(r.manager, r.store)
    ensures Storage.UnchangedExcept(store, r.store, MembersKey)
    ensures store.Unavailable? ==> r.store == store
  {
    var member := Member(draft.id.GetOr(now), draft.institutionName, draft.state, draft.details,
                         today, false);
    var cm' := cm.(members := cm.members + [member]);
    Added(cm', Storage.Save(store, MembersKey, MemberList(cm'.members)), member)
  }

  /** createCampaign: stamp the draft as active with one supporter, append, persist. */
  function CreateCampaign(cm: CoalitionManager, store: Store, draft: CampaignDraft, now: int, today: string)
    : (r: Added<CoalitionManager, Campaign>)
    ensures r.item.id == draft.id.GetOr(now)
    ensures r.item.details == draft.details
    ensures r.item.startDate == today && r.item.supporters == 1 && r.item.status == "active"
    ensures r.manager.campaigns == cm.campaigns + [r.item]
    ensures r.manager.members == cm.members
    ensures store.Available? ==> LoadCampaigns(r.store) == r.manager.campaigns
    ensures InSync(cm, store) ==> InSync(r.manager, r.store)
    ensures Storage.UnchangedExcept(store, r.store, CampaignsKey)
    ensures store.Unavailable? ==> r.store == store
  {
    var campaign := Campaign(draft.id.GetOr(now), draft.details, today, 1, "active");
    var cm' := cm.(campaigns := cm.campaigns + [campaign]);
    Added(cm', Storage.Save(store, CampaignsKey, CampaignList(cm'.campaigns)), campaign)
  }

  /** `members.map(m => m.state)`; an absent state is a value of its own. */
  function States(members: seq<Member>): (r: seq<Option<string>>)
    ensures |r| == |members|
    ensures forall i :: 0 <= i < |members| ==> r[i] == members[i].state
  {
    seq(|members|, i requires 0 <= i < |members| => members[i].state)
  }

  predicate IsActive(c: Campaign) {
    c.status == "active"
  }

  /**
   * updateStats: the number of members, of distinct states among them
   * (`[...new Set(states)].length`), and of active campaigns.
   */
  function UpdateStats(cm: CoalitionManager): (s: Stats)
    ensures s.memberCount == |cm.members|
    ensures s.statesCount == |set i | 0 <= i < |cm.members| :: cm.members[i].state|
    ensures s.campaignsCount == |set i | 0 <= i < |cm.campaigns| && cm.campaigns[i].status == "active"|
  {
    var states := States(cm.members);
    DistinctStatesCount(cm.members);
    Seqs.FilterLength(cm.campaigns, IsActive);
    assert Seqs.Positions(cm.campaigns, IsActive)
        == set i | 0 <= i < |cm.campaigns| && cm.campaigns[i].status == "active";
    Stats(|cm.members|, |Seqs.Distinct(states)|, |Seqs.Filter(cm.campaigns, IsActive)|)
  }

  lemma DistinctStatesCount(members: seq<Member>)
    ensures |Seqs.Distinct(States(members))| == |set i | 0 <= i < |members| :: members[i].state|
  {
    var states := States(members);
    Seqs.DistinctCardinality(states);
    var byValue := set x | x in states;
    var byIndex := set i | 0 <= i < |members| :: members[i].state;
    forall x | x in byValue ensures x in byIndex {
      var i :| 0 <= i < |states| && states[i] == x;
      assert members[i].state == x;
    }
    forall x | x in byIndex ensures x in byValue {
      var i :| 0 <= i < |members| && members[i].state == x;
      assert states[i] == x;
    }
    assert byValue == byIndex;
  }

  /**
   * A new member raises the member count by one and the state count by one
   * exactly when no existing member has the new member's state.
   */
  lemma AddMemberStats(cm: CoalitionManager, store: Store, draft: MemberDraft, now: int, today: string)
    ensures var before, after := UpdateStats(cm), UpdateStats(AddMember(cm, store, draft, now, today).manager);
      && after.memberCount == before.memberCount + 1
      && after.statesCount == before.statesCount + (if draft.state in States(cm.members) then 0 else 1)
      && after.campaignsCount == before.campaignsCount
  {
    var ms := cm.members;
    var ms' := AddMember(cm, store, draft, now, today).manager.members;
    var old_ := set i | 0 <= i < |ms| :: ms[i].state;
    var new_ := set i | 0 <= i < |ms'| :: ms'[i].state;
    assert new_ == old_ + {draft.state} by {
      assert ms'[|ms|].state == draft.state;
      forall x | x in new_ ensures x in old_ + {draft.state} {
        var i :| 0 <= i < |ms'| && ms'[i].state == x;
        if i < |ms| {
          assert ms'[i] == ms[i];
        }
      }
      forall x | x in old_ ensures x in new_ {
        var i :| 0 <= i < |ms| && ms[i].state == x;
        assert ms'[i] == ms[i];
      }
    }
    assert draft.state in States(ms) <==> draft.state in old_ by {
      if draft.state in States(ms) {
        var i :| 0 <= i < |ms| && States(ms)[i] == draft.state;
        assert ms[i].state == draft.state;
      }
      if draft.state in old_ {
        var i :| 0 <= i < |ms| && ms[i].state == draft.state;
        assert States(ms)[i] == draft.state;
      }
    }
  }

  /** A new campaign raises the active-campaign count by exactly one and changes nothing else. */
  lemma CreateCampaignStats(cm: CoalitionManager, store: Store, draft: CampaignDraft, now: int, today: string)
    ensures var before, after := UpdateStats(cm), UpdateStats(CreateCampaign(cm, store, draft, now, today).manager);
      && after.memberCount == before.memberCount
      && after.statesCount == before.statesCount
      && after.campaignsCount == before.campaignsCount + 1
  {
    var cs := cm.campaigns;
    var cs' := CreateCampaign(cm, store, draft, now, today).manager.campaigns;
    var old_ := set i | 0 <= i < |cs| && cs[i].status == "active";
    var new_ := set i | 0 <= i < |cs'| && cs'[i].status == "active";
    assert new_ == old_ + {|cs|} by {
      forall i | 0 <= i < |cs| ensures cs'[i] == cs[i] { }
    }
  }

  /** Members in states MH, MH and KA with one active and one other campaign give 3, 2 and 1. */
  lemma StatsExample(a: Member, b: Member, c: Member, x: Campaign, y: Campaign)
    requires a.state == Some("MH") && b.state == Some("MH") && c.state == Some("KA")
    requires x.status == "active" && y.status == "closed"
    ensures UpdateStats(CoalitionManager([a, b, c], [x, y])) == Stats(3, 2, 1)
  {
    var ms := [a, b, c];
    assert (set i | 0 <= i < |ms| :: ms[i].state) == {Some("MH"), Some("KA")} by {
      assert ms[0].state == Some("MH") && ms[2].state == Some("KA");
    }
    var cs := [x, y];
    assert (set i | 0 <= i < |cs| && cs[i].status == "active") == {0};
  }
}
