/**
 * `scheduleTaskReminders` (`src/lib/notification.js`): one timer per open todo whose
 * reminder lies strictly in the future, with the delay clamped to what `setTimeout`
 * accepts, and a handle whose `clear` cancels every timer it recorded. The browser's timer
 * table is the class `TimerHost`; whether a `window` exists, the clock and the user's
 * notification setup are parameters.
 */
module Notification {
  import opened Wrappers
  import opened JsDate
  import opened TodoModel
  import opened DateUtils

  /** `2 ** 31 - 1`, the largest delay `setTimeout` honours. */
  const MaxTimerDelay: int := 0x7FFF_FFFF

  const ReminderTitle: string := "リマインド"
  const FallbackBody: string := "タスク"

  /** An armed timer: its delay in milliseconds and the todo it announces. */
  datatype Reminder = Reminder(delay: int, todo: Todo)

  /** The delay armed for a todo, or nothing when it does not qualify. */
  function ReminderDelay(h: Host, t: Todo, now: int): Option<int> {
    if t.remindAt.None? || t.remindAt.value == "" || t.completed then None
    else match h.parse(t.remindAt.value)
      case Invalid => None
      case At(when) =>
        if when <= now then None
        else Some(if when - now < MaxTimerDelay then when - now else MaxTimerDelay)
  }

  /** The timers the loop arms, in input order. */
  function Plan(h: Host, todos: seq<Todo>, now: int): seq<Reminder> {
    if todos == [] then []
    else
      var last := todos[|todos| - 1];
      Plan(h, todos[..|todos| - 1], now) +
        (match ReminderDelay(h, last, now)
         case Some(d) => [Reminder(d, last)]
         case None => [])
  }

  /** The todos that qualify for a reminder, in input order. */
  function Qualifying(h: Host, todos: seq<Todo>, now: int): seq<Todo> {
    if todos == [] then []
    else
      var last := todos[|todos| - 1];
      Qualifying(h, todos[..|todos| - 1], now) + (if ReminderDelay(h, last, now).Some? then [last] else [])
  }

  // ---------------------------------------------------------------- timers

  /** The browser's timer table: `setTimeout` hands out fresh ids, `clearTimeout` cancels. */
  class TimerHost {
    var pending: map<nat, Reminder>
    var nextId: nat

    ghost predicate Valid()
      reads this
    {
      forall id :: id in pending ==> id < nextId
    }

    constructor ()
      ensures Valid() && pending == map[] && nextId == 1
    {
      pending := map[];
      nextId := 1;
    }

    /** `setTimeout(callback, delay)`: records the timer under an id never used before. */
    method SetTimeout(r: Reminder) returns (id: nat)
      requires Valid()
      modifies this
      ensures Valid()
      ensures id == old(nextId) && id !in old(pending)
      ensures pending == old(pending)[id := r] && nextId == old(nextId) + 1
    {
      id := nextId;
      pending := pending[id := r];
      nextId := nextId + 1;
    }

    /** `clearTimeout(id)`: cancels the timer if it is still pending; an unknown id is ignored. */
    method ClearTimeout(id: nat)
      requires Valid()
      modifies this
      ensures Valid()
      ensures pending == old(pending) - {id} && nextId == old(nextId)
    {
      pending := pending - {id};
    }
  }

  /** What `scheduleTaskReminders` returns: `{ clear }`, closing over the recorded ids. */
  class ReminderHandle {
    const host: TimerHost
    var timeouts: seq<nat>

    constructor (host: TimerHost)
      ensures this.host == host && timeouts == []
    {
      this.host := host;
      timeouts := [];
    }

    /** `clear()`: cancels every recorded timer and leaves every other timer alone. */
    method Clear()
      requires host.Valid()
      modifies host
      ensures host.Valid() && host.nextId == old(host.nextId)
      ensures forall id :: id in host.pending <==> id in old(host.pending) && id !in timeouts
      ensures forall id :: id in host.pending ==> host.pending[id] == old(host.pending)[id]
    {
      for i := 0 to |timeouts|
        invariant host.Valid() && host.nextId == old(host.nextId)
        invariant forall id :: id in host.pending <==> id in old(host.pending) && id !in timeouts[..i]
        invariant forall id :: id in host.pending ==> host.pending[id] == old(host.pending)[id]
      {
        assert timeouts[..i + 1] == timeouts[..i] + [timeouts[i]];
        host.ClearTimeout(timeouts[i]);
      }
      assert timeouts[..|timeouts|] == timeouts;
    }
  }

  /**
   * `scheduleTaskReminders(todos, onNotify)` at time `now`. Without a `window` nothing is
   * armed. Otherwise one timer per qualifying todo is armed, in input order, and its id is
   * recorded in the handle.
   */
  method ScheduleTaskReminders(host: TimerHost, h: Host, todos: seq<Todo>, now: int, hasWindow: bool)
    returns (handle: ReminderHandle)
    requires host.Valid()
    modifies host
    ensures fresh(handle) && handle.host == host && host.Valid()
    ensures |handle.timeouts| == (if hasWindow then |Plan(h, todos, now)| else 0)
    ensures forall i :: 0 <= i < |handle.timeouts| ==> handle.timeouts[i] == old(host.nextId) + i
    ensures host.nextId == old(host.nextId) + |handle.timeouts|
    ensures forall id :: id in host.pending <==> id in old(host.pending) || id in handle.timeouts
    ensures forall id :: id in old(host.pending) ==> host.pending[id] == old(host.pending)[id]
    ensures forall i :: 0 <= i < |handle.timeouts| ==> host.pending[handle.timeouts[i]] == Plan(h, todos, now)[i]
  {
    handle := new ReminderHandle(host);
    if !hasWindow {
      return;
    }
    for n := 0 to |todos|
      invariant host.Valid() && handle.host == host
      invariant |handle.timeouts| == |Plan(h, todos[..n], now)|
      invariant forall i :: 0 <= i < |handle.timeouts| ==> handle.timeouts[i] == old(host.nextId) + i
      invariant host.nextId == old(host.nextId) + |handle.timeouts|
      invariant forall id :: id in host.pending <==> id in old(host.pending) || id in handle.timeouts
      invariant forall id :: id in old(host.pending) ==> host.pending[id] == old(host.pending)[id]
      invariant forall i :: 0 <= i < |handle.timeouts| ==> host.pending[handle.timeouts[i]] == Plan(h, todos[..n], now)[i]
    {
      var t := todos[n];
      assert todos[..n + 1][..n] == todos[..n];
      var delay := ReminderDelay(h, t, now);
      if delay.None? {
        continue;
      }
      var id := host.SetTimeout(Reminder(delay.value, t));
      handle.timeouts := handle.timeouts + [id];
    }
    assert todos[..|todos|] == todos;
  }

  // ---------------------------------------------------------------- firing

  /** The caller's `onNotify`: not a function, or a function that returns or throws. */
  datatype OnNotify = NotAFunction | Handler(throws: bool)

  /** Where a reminder ends up. */
  datatype Delivery =
    | ToHandler(title: string, body: string)
    | SystemNotification(title: string, body: string)
    | AlertBox(text: string)

  /** `t.name || "タスク"`. */
  function ReminderBody(t: Todo): string {
    if t.name == "" then FallbackBody else t.name
  }

  /** `showNotify`: a system notification when permitted and it does not fail, else an alert. */
  function ShowNotify(canNotify: bool, notificationFails: bool, title: string, body: string): Delivery {
    if canNotify && !notificationFails then SystemNotification(title, body)
    else AlertBox(title + (if body != "" then "\n" + body else ""))
  }

  /** The callback of a timer firing for todo `t`. */
  function Fire(t: Todo, onNotify: OnNotify, canNotify: bool, notificationFails: bool): Delivery {
    match onNotify
    case Handler(throws) =>
      if !throws then ToHandler(ReminderTitle, ReminderBody(t))
      else ShowNotify(canNotify, notificationFails, ReminderTitle, ReminderBody(t))
    case NotAFunction => ShowNotify(canNotify, notificationFails, ReminderTitle, ReminderBody(t))
  }

  // ---------------------------------------------------------------- lemmas

  /**
   * A todo qualifies exactly when it is open and its reminder parses to a time that is
   * neither past (`isPastISO`) nor the present instant.
   */
  lemma QualifiesIffFuture(h: Host, t: Todo, now: int)
    ensures ReminderDelay(h, t, now).Some? <==>
      && !t.completed && IsValidDate(ParseISO(h, t.remindAt))
      && !IsPastISO(h, t.remindAt.value, now) && ParseISO(h, t.remindAt).time != now
  {
  }

  /** Every armed delay is the time left, clamped to `2^31 - 1`; so it lies in `1..2^31-1`. */
  lemma DelayClamped(h: Host, t: Todo, now: int)
    requires ReminderDelay(h, t, now).Some?
    ensures var d := ReminderDelay(h, t, now).value; var left := ParseISO(h, t.remindAt).time - now;
      && 1 <= d <= MaxTimerDelay
      && d <= left
      && (d == left || (d == MaxTimerDelay && left > MaxTimerDelay))
  {
  }

  /** The armed timers are one per qualifying todo, in input order, each with that todo's delay. */
  lemma {:induction false} PlanFollowsQualifying(h: Host, todos: seq<Todo>, now: int)
    ensures |Plan(h, todos, now)| == |Qualifying(h, todos, now)|
    ensures forall i :: 0 <= i < |Plan(h, todos, now)| ==>
      && Plan(h, todos, now)[i].todo == Qualifying(h, todos, now)[i]
      && Some(Plan(h, todos, now)[i].delay) == ReminderDelay(h, Qualifying(h, todos, now)[i], now)
  {
    if todos != [] {
      PlanFollowsQualifying(h, todos[..|todos| - 1], now);
    }
  }

  /** The qualifying todos are exactly the input's open todos with a strictly future reminder. */
  lemma {:induction false} QualifyingMembers(h: Host, todos: seq<Todo>, now: int)
    ensures forall t :: t in Qualifying(h, todos, now) <==> t in todos && ReminderDelay(h, t, now).Some?
  {
    if todos != [] {
      var init := todos[..|todos| - 1];
      QualifyingMembers(h, init, now);
      assert todos == init + [todos[|todos| - 1]];
    }
  }

  /** A completed todo, or one whose reminder is missing, unreadable or past, is never armed. */
  lemma NeverArmed(h: Host, todos: seq<Todo>, now: int, t: Todo)
    requires t.completed || !IsValidDate(ParseISO(h, t.remindAt)) || IsPastISO(h, t.remindAt.value, now)
    ensures forall i :: 0 <= i < |Plan(h, todos, now)| ==> Plan(h, todos, now)[i].todo != t
  {
    PlanFollowsQualifying(h, todos, now);
    QualifyingMembers(h, todos, now);
    forall i | 0 <= i < |Plan(h, todos, now)|
      ensures Plan(h, todos, now)[i].todo != t
    {
      assert Qualifying(h, todos, now)[i] in Qualifying(h, todos, now);
    }
  }

  /** Every reminder is titled リマインド and names its todo, or says タスク when the name is empty. */
  lemma FireAnnouncesTodo(t: Todo, onNotify: OnNotify, canNotify: bool, notificationFails: bool)
    ensures var d := Fire(t, onNotify, canNotify, notificationFails); var body := ReminderBody(t);
      && body != ""
      && (t.name != "" ==> body == t.name)
      && (d.ToHandler? || d.SystemNotification? ==> d.title == ReminderTitle && d.body == body)
      && (d.AlertBox? ==> d.text == ReminderTitle + "\n" + body)
  {
  }

  /** The caller's handler is used exactly when it is a function that does not throw; otherwise the fallback notifier is. */
  lemma HandlerOrFallback(t: Todo, onNotify: OnNotify, canNotify: bool, notificationFails: bool)
    ensures Fire(t, onNotify, canNotify, notificationFails).ToHandler? <==> onNotify == Handler(false)
    ensures Fire(t, onNotify, canNotify, notificationFails).SystemNotification? <==>
      onNotify != Handler(false) && canNotify && !notificationFails
  {
  }
}
