/**
 * app/Models/Notification.php: the relative-time label, the read flag and
 * its two toggles, the query scopes, and `createNotification`. Carbon's
 * hour and day differences are inputs.
 */
module NotificationModel {
  import opened Common
  import opened PhpMath

  /** The `priority` column: an enum of three values, `medium` by default. */
  const Priorities: seq<string> := ["low", "medium", "high"]

  /** One row of `notifications`. */
  datatype Notification = Notification(
    id: nat,
    userId: Option<nat>,
    userName: string,
    action: string,
    target: string,
    notificationType: string,
    details: string,
    priority: string,
    read: bool,
    metadata: Option<string>)

  /**
   * `formatted_time`: under an hour `Just now`, under a day the whole hours,
   * otherwise the whole days (both always plural). `hours` and `days` are
   * Carbon's differences from now to the creation time, which may be signed.
   */
  function FormattedTime(hours: int, days: int): (s: string)
    ensures hours < 1 <==> s == "Just now"
    ensures 1 <= hours < 24 ==> s == DecimalString(hours) + " hours ago"
    ensures hours >= 24 ==> s == SignedString(days) + " days ago"
  {
    if hours < 1 then "Just now"
    else if hours < 24 then DecimalString(hours) + " hours ago"
    else SignedString(days) + " days ago"
  }

  /**
   * With a signed difference, a row created in the past has a negative hour
   * count, so it reads `Just now` however old it is.
   */
  lemma PastRowReadsJustNow(hours: int, days: int)
    requires hours < 0
    ensures FormattedTime(hours, days) == "Just now"
  {
  }

  /** Two hour counts under a day that give the same label are the same count. */
  lemma HoursLabelInjective(h1: int, h2: int, d: int)
    requires 1 <= h1 < 24 && 1 <= h2 < 24
    requires FormattedTime(h1, d) == FormattedTime(h2, d)
    ensures h1 == h2
  {
    NumberLabelInjective(h1, h2, " hours ago");
  }

  /** An hours label and a days label are never the same text. */
  lemma HoursAndDaysDiffer(h: int, d1: int, d2: int)
    requires 1 <= h < 24
    ensures FormattedTime(h, d1) != FormattedTime(24, d2)
  {
    var a, b := DecimalString(h), SignedString(d2);
    var x, y := a + " hours ago", b + " days ago";
    assert x[|x| - 9] == 'h' && y[|y| - 9] == ' ';
  }

  /** The row with its read flag set to `read`, everything else as it was. */
  function WithRead(n: Notification, read: bool): (r: Notification)
    ensures r.read == read
    ensures r.(read := n.read) == n
  {
    n.(read := read)
  }

  /** Marking twice is marking once, and the later mark decides. */
  lemma MarkLastWins(n: Notification, a: bool, b: bool)
    ensures WithRead(WithRead(n, a), b) == WithRead(n, b)
    ensures WithRead(WithRead(n, a), a) == WithRead(n, a)
  {
  }

  /** `markAsRead` followed by `markAsUnread` restores an unread row. */
  lemma ReadThenUnreadRestores(n: Notification)
    requires !n.read
    ensures WithRead(WithRead(n, true), false) == n
  {
  }

  /** `scopeUnread`: the unread rows, in order. */
  function Unread(rows: seq<Notification>): (r: seq<Notification>)
    ensures |r| <= |rows|
    ensures forall n :: n in r <==> n in rows && !n.read
    decreases |rows|
  {
    if |rows| == 0 then []
    else (if !rows[0].read then [rows[0]] else []) + Unread(rows[1..])
  }

  /** `scopeRead`: the read rows, in order. */
  function ReadRows(rows: seq<Notification>): (r: seq<Notification>)
    ensures |r| <= |rows|
    ensures forall n :: n in r <==> n in rows && n.read
    decreases |rows|
  {
    if |rows| == 0 then []
    else (if rows[0].read then [rows[0]] else []) + ReadRows(rows[1..])
  }

  /** Every row is in exactly one of the two scopes. */
  lemma {:induction false} ReadScopesPartition(rows: seq<Notification>)
    ensures |Unread(rows)| + |ReadRows(rows)| == |rows|
    ensures forall n :: n in rows ==> (n in Unread(rows) <==> n !in ReadRows(rows))
    decreases |rows|
  {
    if |rows| > 0 {
      ReadScopesPartition(rows[1..]);
    }
  }

  /** `scopeByPriority`: the rows of one priority, in order. */
  function ByPriority(rows: seq<Notification>, priority: string): (r: seq<Notification>)
    ensures |r| <= |rows|
    ensures forall n :: n in r <==> n in rows && n.priority == priority
    decreases |rows|
  {
    if |rows| == 0 then []
    else (if rows[0].priority == priority then [rows[0]] else []) + ByPriority(rows[1..], priority)
  }

  /** `scopeHighPriority` is `byPriority('high')`. */
  function HighPriority(rows: seq<Notification>): (r: seq<Notification>)
    ensures forall n :: n in r <==> n in rows && n.priority == "high"
  {
    ByPriority(rows, "high")
  }

  /** `scopeByType`: the rows of one type, in order. */
  function ByType(rows: seq<Notification>, notificationType: string): (r: seq<Notification>)
    ensures |r| <= |rows|
    ensures forall n :: n in r <==> n in rows && n.notificationType == notificationType
    decreases |rows|
  {
    if |rows| == 0 then []
    else (if rows[0].notificationType == notificationType then [rows[0]] else []) + ByType(rows[1..], notificationType)
  }

  /** The array passed to `createNotification`; `Malformed` is a value the column cannot hold. */
  datatype NotificationData = NotificationData(
    userId: Field<nat>,
    userName: Field<string>,
    action: Field<string>,
    target: Field<string>,
    notificationType: Field<string>,
    details: Field<string>,
    priority: Field<string>,
    metadata: Field<string>)

  /**
   * The insert succeeds when the five NOT NULL columns are given and the
   * priority, if given, is one of the enum values. A missing key is an
   * undefined-index error and a null one violates the column, both
   * exceptions.
   */
  predicate Insertable(data: NotificationData)
  {
    && !data.userId.Malformed?
    && data.userName.Given? && data.action.Given? && data.target.Given?
    && data.notificationType.Given? && data.details.Given?
    && (data.priority.Given? ==> data.priority.value in Priorities)
    && !data.priority.Malformed?
    && !data.metadata.Malformed?
  }

  /** The row `createNotification` inserts, before it gets its id. */
  function NotificationRow(data: NotificationData): (n: Notification)
    requires Insertable(data)
    ensures n.userId == (if data.userId.Given? then Some(data.userId.value) else None)
    ensures n.userName == data.userName.value && n.details == data.details.value
    ensures n.action == data.action.value && n.target == data.target.value
    ensures n.notificationType == data.notificationType.value
    ensures n.priority == (if data.priority.Given? then data.priority.value else "medium")
    ensures n.priority in Priorities
    ensures !n.read
    ensures data.metadata.Absent? || data.metadata.Null? <==> n.metadata.None?
    ensures data.metadata.Given? ==> n.metadata == Some(data.metadata.value)
  {
    Notification(0, data.userId.OverNullable(None), data.userName.value, data.action.value,
      data.target.value, data.notificationType.value, data.details.value,
      data.priority.OrElse("medium"), false, data.metadata.OverNullable(None))
  }

  /** The `notifications` table. */
  class NotificationTable {
    var rows: seq<Notification>
    var nextId: nat

    /** Every id is below the next one to be handed out. */
    predicate Valid()
      reads this
    {
      forall i :: 0 <= i < |rows| ==> rows[i].id < nextId
    }

    constructor ()
      ensures Valid() && rows == [] && nextId == 1
    {
      rows, nextId := [], 1;
    }

    /**
     * `createNotification`: `None` when the insert fails (the table is left
     * as it was), otherwise the new row, appended with a fresh id.
     */
    method Create(data: NotificationData) returns (created: Option<Notification>)
      requires Valid()
      modifies this
      ensures Valid()
      ensures !Insertable(data) ==> created.None? && rows == old(rows) && nextId == old(nextId)
      ensures Insertable(data) ==>
        && created == Some(NotificationRow(data).(id := old(nextId)))
        && rows == old(rows) + [created.value]
        && nextId == old(nextId) + 1
    {
      if !Insertable(data) {
        return None;
      }
      var n := NotificationRow(data).(id := nextId);
      rows := rows + [n];
      nextId := nextId + 1;
      created := Some(n);
    }

    /** `markAsRead`: only the read flag of row `i` changes. */
    method MarkAsRead(i: nat)
      requires Valid() && i < |rows|
      modifies this
      ensures Valid() && nextId == old(nextId)
      ensures rows == old(rows)[i := WithRead(old(rows[i]), true)]
    {
      rows := rows[i := WithRead(rows[i], true)];
    }

    /** `markAsUnread`: only the read flag of row `i` changes. */
    method MarkAsUnread(i: nat)
      requires Valid() && i < |rows|
      modifies this
      ensures Valid() && nextId == old(nextId)
      ensures rows == old(rows)[i := WithRead(old(rows[i]), false)]
    {
      rows := rows[i := WithRead(rows[i], false)];
    }
  }
}
