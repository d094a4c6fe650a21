/**
 * The notification service (app/services/notification_service.py) over the notification
 * table, held as the sequence `notifications` in store order.
 */
module Notifications {
  import opened Wrappers
  import opened Records
  import Dates

  const TypeInfo: string := "info"
  const TypeSuccess: string := "success"
  const TypeWarning: string := "warning"
  const TypeDanger: string := "danger"

  /** `ICON_MAP`: the default icon of each notification type. */
  const IconMap: map<string, string> := map[
    TypeInfo := "fa-info-circle",
    TypeSuccess := "fa-check-circle",
    TypeWarning := "fa-exclamation-triangle",
    TypeDanger := "fa-exclamation-circle",
    "user" := "fa-user",
    "attendance" := "fa-clock",
    "system" := "fa-cog"]

  predicate StartsWith(s: string, prefix: string) {
    |prefix| <= |s| && s[..|prefix|] == prefix
  }

  /** Python truthiness of an optional string: `None` and `''` are false. */
  predicate Falsy(icon: Option<string>) {
    icon.None? || icon.value == ""
  }

  /** Python truthiness of an optional id: `None` and `0` are false. */
  predicate TruthyId(id: Option<int>) {
    id.Some? && id.value != 0
  }

  /** The icon `create_notification` stores: the type's default when none is given, an
      `fa-` prefix added when missing, otherwise the icon as given. */
  function ResolveIcon(kind: string, icon: Option<string>): (r: Option<string>)
    ensures Falsy(r) || StartsWith(r.value, "fa-")
    ensures Falsy(r) ==> r == icon && kind !in IconMap
  {
    if Falsy(icon) && kind in IconMap then Some(IconMap[kind])
    else if !Falsy(icon) && !StartsWith(icon.value, "fa-") then Some("fa-" + icon.value)
    else icon
  }

  lemma IconMapPrefixed()
    ensures forall k :: k in IconMap ==> StartsWith(IconMap[k], "fa-")
  {
    assert IconMap.Keys == {TypeInfo, TypeSuccess, TypeWarning, TypeDanger, "user", "attendance", "system"};
  }

  /** The three cases of icon resolution, each stated on its own. */
  lemma ResolveIconCases(kind: string, icon: Option<string>)
    ensures Falsy(icon) && kind in IconMap ==> ResolveIcon(kind, icon) == Some(IconMap[kind])
    ensures !Falsy(icon) && !StartsWith(icon.value, "fa-") ==> ResolveIcon(kind, icon) == Some("fa-" + icon.value)
    ensures !Falsy(icon) && StartsWith(icon.value, "fa-") ==> ResolveIcon(kind, icon) == icon
  {
  }

  /** Resolving an icon that is already resolved changes nothing. */
  lemma ResolveIconIdempotent(kind: string, icon: Option<string>)
    ensures ResolveIcon(kind, ResolveIcon(kind, icon)) == ResolveIcon(kind, icon)
  {
    IconMapPrefixed();
  }

  // ---- get_notifications -------------------------------------------------------

  /** The WHERE clause of `get_notifications`. */
  predicate Selected(n: Notification, includeRead: bool, employeeId: Option<int>) {
    (includeRead || !n.isRead) && (!TruthyId(employeeId) || n.employeeId == employeeId)
  }

  /** The selected rows, in store order. */
  function Matching(ns: seq<Notification>, includeRead: bool, employeeId: Option<int>): (r: seq<Notification>)
    ensures |r| <= |ns|
    ensures forall n :: n in r <==> n in ns && Selected(n, includeRead, employeeId)
  {
    if ns == [] then []
    else if Selected(ns[0], includeRead, employeeId) then [ns[0]] + Matching(ns[1..], includeRead, employeeId)
    else Matching(ns[1..], includeRead, employeeId)
  }

  predicate NewestFirst(s: seq<Notification>) {
    forall i, j :: 0 <= i < j < |s| ==> s[i].createdAt >= s[j].createdAt
  }

  lemma ConsNewestFirst(h: Notification, t: seq<Notification>)
    requires NewestFirst(t)
    requires forall y :: y in t ==> h.createdAt >= y.createdAt
    ensures NewestFirst([h] + t)
  {
    var s := [h] + t;
    forall i, j | 0 <= i < j < |s| ensures s[i].createdAt >= s[j].createdAt {
      if i == 0 {
        assert s[j] == t[j - 1];
        assert t[j - 1] in t;
      } else {
        assert s[i] == t[i - 1] && s[j] == t[j - 1];
      }
    }
  }

  /** Behind the newest entry, the rest is still newest first and no newer. */
  lemma NewestFirstTail(s: seq<Notification>)
    requires NewestFirst(s) && s != []
    ensures NewestFirst(s[1..])
    ensures forall y :: y in s[1..] ==> s[0].createdAt >= y.createdAt
  {
    forall y | y in s[1..] ensures s[0].createdAt >= y.createdAt {
      var k :| 0 <= k < |s[1..]| && s[1..][k] == y;
      assert s[k + 1] == y;
    }
  }

  function Insert(x: Notification, s: seq<Notification>): (r: seq<Notification>)
    requires NewestFirst(s)
    ensures NewestFirst(r)
    ensures multiset(r) == multiset(s) + multiset{x}
    decreases |s|
  {
    if s == [] || s[0].createdAt <= x.createdAt then
      ConsNewestFirst(x, s);
      [x] + s
    else
      NewestFirstTail(s);
      var rest := Insert(x, s[1..]);
      assert s == [s[0]] + s[1..];
      assert multiset(s) == multiset{s[0]} + multiset(s[1..]);
      forall y | y in rest ensures s[0].createdAt >= y.createdAt {
        assert y in multiset(rest);
      }
      ConsNewestFirst(s[0], rest);
      [s[0]] + rest
  }

  /** `ORDER BY created_at DESC`: a reordering of the input, newest first. */
  function SortNewestFirst(s: seq<Notification>): (r: seq<Notification>)
    ensures NewestFirst(r)
    ensures multiset(r) == multiset(s)
  {
    if s == [] then []
    else
      assert s == [s[0]] + s[1..];
      Insert(s[0], SortNewestFirst(s[1..]))
  }

  /** `get_notifications(limit, include_read, employee_id)`: the selected notifications,
      newest first, at most `limit` of them when `limit` is non-zero. */
  function GetNotifications(ns: seq<Notification>, limit: nat, includeRead: bool, employeeId: Option<int>): (r: seq<Notification>)
  {
    var sorted := SortNewestFirst(Matching(ns, includeRead, employeeId));
    if limit != 0 && limit < |sorted| then sorted[..limit] else sorted
  }

  lemma SortedLength(s: seq<Notification>)
    ensures |SortNewestFirst(s)| == |s|
  {
    var r := SortNewestFirst(s);
    assert |multiset(r)| == |r| && |multiset(s)| == |s|;
  }

  lemma InSorted(s: seq<Notification>, n: Notification)
    ensures n in SortNewestFirst(s) <==> n in s
  {
    var r := SortNewestFirst(s);
    assert n in r <==> n in multiset(r);
    assert n in s <==> n in multiset(s);
  }

  /** Every notification returned is a selected one of the table, and they come newest
      first. */
  lemma GetNotificationsSound(ns: seq<Notification>, limit: nat, includeRead: bool, employeeId: Option<int>)
    ensures NewestFirst(GetNotifications(ns, limit, includeRead, employeeId))
    ensures forall n :: n in GetNotifications(ns, limit, includeRead, employeeId) ==> n in ns && Selected(n, includeRead, employeeId)
  {
    var sorted := SortNewestFirst(Matching(ns, includeRead, employeeId));
    var r := GetNotifications(ns, limit, includeRead, employeeId);
    forall n | n in r ensures n in ns && Selected(n, includeRead, employeeId) {
      assert n in sorted;
      InSorted(Matching(ns, includeRead, employeeId), n);
    }
  }

  /** As many are returned as are selected, cut to `limit` when it is non-zero. */
  lemma GetNotificationsSize(ns: seq<Notification>, limit: nat, includeRead: bool, employeeId: Option<int>)
    ensures var total := |Matching(ns, includeRead, employeeId)|;
      |GetNotifications(ns, limit, includeRead, employeeId)| == if limit != 0 && limit < total then limit else total
  {
    SortedLength(Matching(ns, includeRead, employeeId));
  }

  /** Without a limit, every selected notification is returned. */
  lemma GetNotificationsComplete(ns: seq<Notification>, includeRead: bool, employeeId: Option<int>)
    ensures forall n :: n in ns && Selected(n, includeRead, employeeId) ==> n in GetNotifications(ns, 0, includeRead, employeeId)
  {
    forall n | n in ns && Selected(n, includeRead, employeeId) ensures n in GetNotifications(ns, 0, includeRead, employeeId) {
      InSorted(Matching(ns, includeRead, employeeId), n);
    }
  }

  /** The limit keeps the newest: no selected notification left out is newer than one
      returned. */
  lemma GetNotificationsNewest(ns: seq<Notification>, limit: nat, includeRead: bool, employeeId: Option<int>, n: Notification, m: Notification)
    requires n in ns && Selected(n, includeRead, employeeId)
    requires n !in GetNotifications(ns, limit, includeRead, employeeId)
    requires m in GetNotifications(ns, limit, includeRead, employeeId)
    ensures n.createdAt <= m.createdAt
  {
    var sorted := SortNewestFirst(Matching(ns, includeRead, employeeId));
    var r := GetNotifications(ns, limit, includeRead, employeeId);
    InSorted(Matching(ns, includeRead, employeeId), n);
    var i :| 0 <= i < |sorted| && sorted[i] == n;
    var j :| 0 <= j < |r| && r[j] == m;
    assert r == sorted[..|r|];
    assert sorted[j] == m;
    assert forall k :: 0 <= k < |r| ==> sorted[k] == r[k] != n;
  }

  /** Unread only, unless `include_read` is set. */
  lemma GetNotificationsUnreadOnly(ns: seq<Notification>, limit: nat, employeeId: Option<int>)
    ensures forall n :: n in GetNotifications(ns, limit, false, employeeId) ==> !n.isRead
  {
    GetNotificationsSound(ns, limit, false, employeeId);
  }

  /** Restricted to one employee only for a truthy id. */
  lemma GetNotificationsForEmployee(ns: seq<Notification>, limit: nat, includeRead: bool, id: int)
    requires id != 0
    ensures forall n :: n in GetNotifications(ns, limit, includeRead, Some(id)) ==> n.employeeId == Some(id)
  {
    GetNotificationsSound(ns, limit, includeRead, Some(id));
  }

  // ---- the table and its updates -------------------------------------------------

  predicate UniqueIds(ns: seq<Notification>) {
    forall i, j :: 0 <= i < j < |ns| ==> ns[i].id != ns[j].id
  }

  function Ids(ns: seq<Notification>): (r: seq<int>)
    ensures |r| == |ns| && forall i :: 0 <= i < |ns| ==> r[i] == ns[i].id
  {
    if ns == [] then [] else [ns[0].id] + Ids(ns[1..])
  }

  /** The rows `mark_all_as_read(employee_id)` updates. */
  predicate UnreadFor(n: Notification, employeeId: Option<int>) {
    !n.isRead && (!TruthyId(employeeId) || n.employeeId == employeeId)
  }

  function CountUnreadFor(ns: seq<Notification>, employeeId: Option<int>): (c: nat)
    ensures c <= |ns|
    ensures c == 0 <==> forall i :: 0 <= i < |ns| ==> !UnreadFor(ns[i], employeeId)
  {
    if ns == [] then 0
    else
      var rest := CountUnreadFor(ns[1..], employeeId);
      assert forall i :: 1 <= i < |ns| ==> ns[i] == ns[1..][i - 1];
      (if UnreadFor(ns[0], employeeId) then 1 else 0) + rest
  }

  /** The table after `UPDATE ... SET is_read = 1` on those rows: the same rows with the
      same ids in the same order, of which only the read flag may change. Each row the call
      was about becomes read, so none of them is left unread, and the rows it was not about
      are as they were. */
  function MarkedRead(ns: seq<Notification>, employeeId: Option<int>): (r: seq<Notification>)
    ensures |r| == |ns| && Ids(r) == Ids(ns)
    ensures forall i :: 0 <= i < |ns| ==> r[i].(isRead := ns[i].isRead) == ns[i]
    ensures forall i :: 0 <= i < |ns| ==> (r[i].isRead <==> ns[i].isRead || UnreadFor(ns[i], employeeId))
    ensures forall i :: 0 <= i < |ns| && !UnreadFor(ns[i], employeeId) ==> r[i] == ns[i]
    ensures CountUnreadFor(r, employeeId) == 0
  {
    seq(|ns|, i requires 0 <= i < |ns| => if UnreadFor(ns[i], employeeId) then ns[i].(isRead := true) else ns[i])
  }

  /** `created_at < cutoff`: the rows `delete_old_notifications` removes. */
  predicate OlderThan(n: Notification, cutoff: Dates.Timestamp) {
    n.createdAt < cutoff
  }

  /** `r` is `s` with some of its elements left out and the others in their order. */
  predicate Subsequence<T(==)>(r: seq<T>, s: seq<T>)
    decreases |s|
  {
    |r| <= |s| && (r == [] || (r[0] == s[0] && Subsequence(r[1..], s[1..])) || Subsequence(r, s[1..]))
  }

  /** The rows that survive the deletion: the rows not older than the cutoff, in store
      order. */
  function KeptAfter(ns: seq<Notification>, cutoff: Dates.Timestamp): (r: seq<Notification>)
    ensures |r| <= |ns| && Subsequence(r, ns)
    ensures forall n :: n in r <==> n in ns && !OlderThan(n, cutoff)
  {
    if ns == [] then []
    else
      var rest := KeptAfter(ns[1..], cutoff);
      if OlderThan(ns[0], cutoff) then rest
      else
        assert ([ns[0]] + rest)[1..] == rest;
        [ns[0]] + rest
  }

  /** The survivors hold every row not older than the cutoff as often as the table does,
      and no other row. */
  lemma {:induction false} KeptAfterCount(ns: seq<Notification>, cutoff: Dates.Timestamp)
    ensures forall n :: multiset(KeptAfter(ns, cutoff))[n] == if OlderThan(n, cutoff) then 0 else multiset(ns)[n]
  {
    if ns != [] {
      KeptAfterCount(ns[1..], cutoff);
      assert ns == [ns[0]] + ns[1..];
    }
  }

  /** The number of rows older than the cutoff. */
  function CountOlder(ns: seq<Notification>, cutoff: Dates.Timestamp): (c: nat)
    ensures c <= |ns|
  {
    if ns == [] then 0 else (if OlderThan(ns[0], cutoff) then 1 else 0) + CountOlder(ns[1..], cutoff)
  }

  /** The count reported is the number of rows that disappear; with none old, all stay. */
  lemma {:induction false} DeleteOldSpec(ns: seq<Notification>, cutoff: Dates.Timestamp)
    ensures |ns| - |KeptAfter(ns, cutoff)| == CountOlder(ns, cutoff)
    ensures CountOlder(ns, cutoff) == 0 ==> KeptAfter(ns, cutoff) == ns
  {
    if ns != [] {
      DeleteOldSpec(ns[1..], cutoff);
    }
  }

  lemma {:induction false} KeptUnique(ns: seq<Notification>, cutoff: Dates.Timestamp)
    requires UniqueIds(ns)
    ensures UniqueIds(KeptAfter(ns, cutoff))
  {
    if ns != [] {
      KeptUnique(ns[1..], cutoff);
      var rest := KeptAfter(ns[1..], cutoff);
      forall k | 0 <= k < |rest| ensures rest[k].id != ns[0].id {
        assert rest[k] in ns[1..];
      }
    }
  }

  class NotificationService {
    /** `self.enabled`. */
    var enabled: bool
    /** The notification table, in store order. */
    var notifications: seq<Notification>

    ghost predicate Valid()
      reads this
    {
      UniqueIds(notifications)
    }

    /** `NotificationService(enabled)` over an existing table. */
    constructor (enabled: bool, table: seq<Notification>)
      requires UniqueIds(table)
      ensures Valid() && this.enabled == enabled && notifications == table
    {
      this.enabled := enabled;
      notifications := table;
    }

    /** `create_notification`: nothing when disabled or when the commit fails; otherwise
        one new unread row with a fresh id and the resolved icon. */
    method CreateNotification(message: string, kind: string, icon: Option<string>, employeeId: Option<int>,
                              now: Dates.Timestamp, commitOk: bool) returns (r: Option<Notification>)
      requires Valid()
      modifies this
      ensures Valid() && enabled == old(enabled)
      ensures !enabled || !commitOk ==> r == None && notifications == old(notifications)
      ensures enabled && commitOk ==>
        && r.Some?
        && r.value == Notification(NextRowId(Ids(old(notifications))), message, kind, ResolveIcon(kind, icon), employeeId, false, now)
        && notifications == old(notifications) + [r.value]
    {
      if !enabled {
        return None;
      }
      var resolved := ResolveIcon(kind, icon);
      if !commitOk {
        return None;
      }
      var ids := Ids(notifications);
      var n := Notification(NextRowId(ids), message, kind, resolved, employeeId, false, now);
      assert forall i :: 0 <= i < |notifications| ==> notifications[i].id == ids[i] < n.id;
      notifications := notifications + [n];
      r := Some(n);
    }

    /** `mark_as_read(notification_id)`: true exactly when that row exists and the commit
        succeeds; then that row alone becomes read. */
    method MarkAsRead(notificationId: int, commitOk: bool) returns (ok: bool)
      requires Valid()
      modifies this
      ensures Valid() && enabled == old(enabled)
      ensures ok == (commitOk && exists i :: 0 <= i < |old(notifications)| && old(notifications)[i].id == notificationId)
      ensures ok ==>
        && |notifications| == |old(notifications)|
        && forall i :: 0 <= i < |notifications| ==>
             notifications[i] == if old(notifications)[i].id == notificationId then old(notifications)[i].(isRead := true) else old(notifications)[i]
      ensures !ok ==> notifications == old(notifications)
    {
      var i := 0;
      while i < |notifications| && notifications[i].id != notificationId
        invariant 0 <= i <= |notifications|
        invariant forall k :: 0 <= k < i ==> notifications[k].id != notificationId
      {
        i := i + 1;
      }
      if i == |notifications| || !commitOk {
        return false;
      }
      notifications := notifications[i := notifications[i].(isRead := true)];
      ok := true;
    }

    /** `mark_all_as_read(employee_id)`: the number of rows it made read. */
    method MarkAllAsRead(employeeId: Option<int>, commitOk: bool) returns (count: int)
      requires Valid()
      modifies this
      ensures Valid() && enabled == old(enabled)
      ensures count == if commitOk then CountUnreadFor(old(notifications), employeeId) else 0
      ensures commitOk ==> notifications == MarkedRead(old(notifications), employeeId)
      ensures !commitOk ==> notifications == old(notifications)
    {
      count := CountUnreadFor(notifications, employeeId);
      if count > 0 {
        if !commitOk {
          return 0;
        }
        notifications := MarkedRead(notifications, employeeId);
      } else {
        assert MarkedRead(notifications, employeeId) == notifications;
      }
    }

    /** `delete_old_notifications(days)`: the rows created before `now - days` disappear,
        the others stay in order, and their number is returned. */
    method DeleteOldNotifications(days: int, now: Dates.Timestamp, commitOk: bool) returns (count: int)
      requires Valid()
      modifies this
      ensures Valid() && enabled == old(enabled)
      ensures var cutoff := now - days * Dates.MicrosPerDay;
        && count == (if commitOk then CountOlder(old(notifications), cutoff) else 0)
        && notifications == (if commitOk then KeptAfter(old(notifications), cutoff) else old(notifications))
    {
      var cutoff := now - days * Dates.MicrosPerDay;
      count := CountOlder(notifications, cutoff);
      DeleteOldSpec(notifications, cutoff);
      if count > 0 {
        if !commitOk {
          return 0;
        }
        KeptUnique(notifications, cutoff);
        notifications := KeptAfter(notifications, cutoff);
      }
    }
  }
}
