/**
 * NotificationManager: notifications, newest first, persisted as a whole
 * under "notifications". Displaying one is left to the page.
 */
module Notifications {
  import opened Wrappers
  import Storage
  import opened Entities

  datatype NotificationManager = NotificationManager(notifications: seq<Notification>)

  const DefaultImportance: string := "normal"

  /** The constructor: load the notifications, an empty list when there are none. */
  function Open(store: Store): (nm: NotificationManager)
    ensures Storage.Get(store, NotificationsKey).None? ==> nm.notifications == []
    ensures var v := Storage.Get(store, NotificationsKey);
      v.Some? ==> nm.notifications == (if v.value.NotificationList? then v.value.notifications else [])
  {
    match Storage.Load(store, NotificationsKey, NotificationList([]))
    case NotificationList(xs) => NotificationManager(xs)
    case _ => NotificationManager([])
  }

  /**
   * addNotification (which returns nothing): an unread notification stamped with the clock, put in
   * front of the list and persisted; `importance` defaults to "normal".
   */
  function AddNotification(nm: NotificationManager, store: Store, kind: string, message: string,
                           importance: Option<string>, now: int, instant: string): (r: Updated<NotificationManager>)
    ensures |r.manager.notifications| == |nm.notifications| + 1
    ensures r.manager.notifications[1..] == nm.notifications
    ensures var n := r.manager.notifications[0];
      && n.id == now && n.kind == kind && n.message == message && n.timestamp == instant && !n.read
      && n.importance == (if importance.Some? then importance.value else DefaultImportance)
    ensures store.Available? ==> Open(r.store) == r.manager
    ensures Storage.UnchangedExcept(store, r.store, NotificationsKey)
    ensures store.Unavailable? ==> r.store == store
  {
    var notification := Notification(now, kind, message, importance.GetOr(DefaultImportance), instant, false);
    var nm' := NotificationManager([notification] + nm.notifications);
    Updated(nm', Storage.Save(store, NotificationsKey, NotificationList(nm'.notifications)))
  }
}
