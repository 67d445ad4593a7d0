/** The records the dashboard receives from the backend, and their
    projection into the uniform items the calendar shows. Instants are
    milliseconds since 1970-01-01T00:00Z, already parsed from the backend's
    ISO-8601 strings. */
module CalendarItems {

  datatype Task = Task(id: string, title: string, description: string, dueDate: int, audience: string)

  datatype Event = Event(id: string, title: string, description: string, startTime: int, endTime: int, audience: string)

  /** The `type` field of a calendar item: 'task' or 'event'. */
  datatype Kind = TaskKind | EventKind

  datatype CalendarItem = CalendarItem(kind: Kind, title: string, date: int)

  /** A task is shown on its due date. */
  function FromTask(t: Task): CalendarItem {
    CalendarItem(TaskKind, t.title, t.dueDate)
  }

  /** An event is shown on its start; its end is dropped. */
  function FromEvent(e: Event): CalendarItem {
    CalendarItem(EventKind, e.title, e.startTime)
  }

  function TaskItems(tasks: seq<Task>): (r: seq<CalendarItem>)
    ensures |r| == |tasks|
    ensures forall i :: 0 <= i < |tasks| ==> r[i] == FromTask(tasks[i])
  {
    if |tasks| == 0 then [] else [FromTask(tasks[0])] + TaskItems(tasks[1..])
  }

  function EventItems(events: seq<Event>): (r: seq<CalendarItem>)
    ensures |r| == |events|
    ensures forall i :: 0 <= i < |events| ==> r[i] == FromEvent(events[i])
  {
    if |events| == 0 then [] else [FromEvent(events[0])] + EventItems(events[1..])
  }

  /** `calendarItems`: all tasks, in order, then all events, in order. */
  function Project(tasks: seq<Task>, events: seq<Event>): (r: seq<CalendarItem>)
    ensures |r| == |tasks| + |events|
    ensures forall i :: 0 <= i < |tasks| ==>
      r[i].kind == TaskKind && r[i].title == tasks[i].title && r[i].date == tasks[i].dueDate
    ensures forall i :: 0 <= i < |events| ==>
      r[|tasks| + i].kind == EventKind && r[|tasks| + i].title == events[i].title
      && r[|tasks| + i].date == events[i].startTime
  {
    TaskItems(tasks) + EventItems(events)
  }

  /** Every calendar item is backed by a task or an event, and every task
      and event backs one: the first `|tasks|` items are exactly the task
      items, the rest exactly the event items. */
  lemma ProjectionBacked(tasks: seq<Task>, events: seq<Event>)
    ensures forall x :: x in Project(tasks, events) ==>
      (exists t :: t in tasks && x == FromTask(t)) || (exists e :: e in events && x == FromEvent(e))
    ensures forall i :: 0 <= i < |Project(tasks, events)| ==>
      (Project(tasks, events)[i].kind == TaskKind <==> i < |tasks|)
  {
    var r := Project(tasks, events);
    forall x | x in r
      ensures (exists t :: t in tasks && x == FromTask(t)) || (exists e :: e in events && x == FromEvent(e))
    {
      var i :| 0 <= i < |r| && r[i] == x;
      if i < |tasks| {
        assert tasks[i] in tasks;
      } else {
        assert events[i - |tasks|] in events;
      }
    }
  }
}
