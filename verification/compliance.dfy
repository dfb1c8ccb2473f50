/**
 * ComplianceTracker: the cost estimate for time spent on regulatory
 * compliance, and the list of shared inspection experiences persisted under
 * "inspections". Numbers are exact reals, not IEEE doubles.
 */
module Compliance {
  import Storage
  import opened Entities

  datatype ComplianceTracker = ComplianceTracker(inspections: seq<Inspection>)

  /** The four figures of a cost estimate. */
  datatype ComplianceCost = ComplianceCost(
    monthly: real,
    annual: real,
    teachingHoursLost: real,
    studentsAffected: int)

  /** The constructor: load the inspections, an empty list when there are none. */
  function Open(store: Store): (ct: ComplianceTracker)
    ensures Storage.Get(store, InspectionsKey).None? ==> ct.inspections == []
    ensures var v := Storage.Get(store, InspectionsKey);
      v.Some? ==> ct.inspections == (if v.value.InspectionList? then v.value.inspections else [])
  {
    match Storage.Load(store, InspectionsKey, InspectionList([]))
    case InspectionList(xs) => ComplianceTracker(xs)
    case _ => ComplianceTracker([])
  }

  /**
   * calculateTotalComplianceCost: `hours` per staff member per month, over
   * `staff` people, at `costPerHour`. The cost is annualised over twelve
   * months, as are the teaching hours lost; the students affected are the
   * whole number of four-hour blocks in those lost hours.
   */
  function TotalComplianceCost(hours: real, staff: real, costPerHour: real): (c: ComplianceCost)
    ensures c.monthly == hours * staff * costPerHour
    ensures c.annual == 12.0 * c.monthly
    ensures c.teachingHoursLost == 12.0 * (hours * staff)
    ensures c.studentsAffected as real <= c.teachingHoursLost / 4.0 < c.studentsAffected as real + 1.0
  {
    var monthly := hours * staff * costPerHour;
    var teachingHoursLost := hours * staff;
    var studentsAffected := teachingHoursLost / 4.0;
    ComplianceCost(monthly, monthly * 12.0, teachingHoursLost * 12.0, (studentsAffected * 12.0).Floor)
  }

  /** Ten hours a month for five staff at 2 an hour. */
  lemma CostExample()
    ensures TotalComplianceCost(10.0, 5.0, 2.0) == ComplianceCost(100.0, 1200.0, 600.0, 150)
  {
  }

  /** addInspectionExperience: stamp the draft, append it, persist the list. */
  function AddInspectionExperience(ct: ComplianceTracker, store: Store, draft: InspectionDraft, now: int, today: string)
    : (r: Added<ComplianceTracker, Inspection>)
    ensures r.item.id == draft.id.GetOr(now)
    ensures r.item.details == draft.details && r.item.submittedDate == today
    ensures r.manager.inspections == ct.inspections + [r.item]
    ensures store.Available? ==> Open(r.store) == r.manager
    ensures Storage.UnchangedExcept(store, r.store, InspectionsKey)
    ensures store.Unavailable? ==> r.store == store
  {
    var experience := Inspection(draft.id.GetOr(now), draft.details, today);
    var ct' := ComplianceTracker(ct.inspections + [experience]);
    Added(ct', Storage.Save(store, InspectionsKey, InspectionList(ct'.inspections)), experience)
  }
}
