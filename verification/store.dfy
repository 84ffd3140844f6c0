/** The event store: the table of events and the operations the service
    exposes on it. Each operation takes the current table and, when it changes
    it, returns the new one; failures are reported as a `Result`. */
module Store {
  import opened Wrappers
  import opened Events
  import opened Selection

  /** The two not-found errors, with the service's messages. */
  datatype Error =
    | EventNotFound         // "Event not found"
    | ActivityHasNoEvents   // "Activity has no events"

  /** The table after a create, and the row the create added. */
  datatype Created = Created(table: seq<Event>, event: Event)

  /** The table after an update or a suspension, and the rows it touched as they now read. */
  datatype Changed = Changed(table: seq<Event>, rows: seq<Event>)

  /** The rows whose id is `id`. */
  function IdMask(table: seq<Event>, id: int): (m: seq<bool>)
    ensures |m| == |table|
    ensures forall i :: 0 <= i < |table| ==> (m[i] <==> table[i].id == id)
  {
    seq(|table|, i requires 0 <= i < |table| => table[i].id == id)
  }

  /** The rows whose activity is `actividad`; a row with no activity never qualifies. */
  function ActividadMask(table: seq<Event>, actividad: int): (m: seq<bool>)
    ensures |m| == |table|
    ensures forall i :: 0 <= i < |table| ==> (m[i] <==> table[i].actividad == Some(actividad))
  {
    seq(|table|, i requires 0 <= i < |table| => table[i].actividad == Some(actividad))
  }

  /** Some row has id `id`. */
  predicate HasId(table: seq<Event>, id: int)
  {
    exists i :: 0 <= i < |table| && table[i].id == id
  }

  /** Some row has activity `actividad`. */
  predicate HasActividad(table: seq<Event>, actividad: int)
  {
    exists i :: 0 <= i < |table| && table[i].actividad == Some(actividad)
  }

  /** No two rows share an id. */
  ghost predicate UniqueIds(table: seq<Event>)
  {
    forall i, j :: 0 <= i < j < |table| ==> table[i].id != table[j].id
  }

  /** The largest id in a non-empty table. */
  function MaxId(table: seq<Event>): (m: int)
    requires |table| > 0
    ensures forall i :: 0 <= i < |table| ==> table[i].id <= m
    ensures exists i :: 0 <= i < |table| && table[i].id == m
  {
    if |table| == 1 then table[0].id
    else
      var rest := MaxId(table[..|table| - 1]);
      var last := table[|table| - 1].id;
      if last > rest then last else rest
  }

  /** The largest activity in the table, skipping rows that have none; `None`
      when no row has one. */
  function MaxActividad(table: seq<Event>): (m: Option<int>)
    ensures m.None? <==> forall i :: 0 <= i < |table| ==> table[i].actividad.None?
    ensures m.Some? ==> forall i :: 0 <= i < |table| && table[i].actividad.Some? ==>
                          table[i].actividad.value <= m.value
    ensures m.Some? ==> exists i :: 0 <= i < |table| && table[i].actividad == m
  {
    if |table| == 0 then None
    else
      var rest := MaxActividad(table[..|table| - 1]);
      var last := table[|table| - 1].actividad;
      if last.None? then rest
      else if rest.None? || last.value > rest.value then last
      else rest
  }

  /** An activity counts as absent when it is missing or zero. */
  predicate Falsy(actividad: Option<int>)
  {
    actividad.None? || actividad.value == 0
  }

  /** The row a create request becomes once it has an id and an activity. */
  function RowOf(n: NewEvent, id: int, actividad: Option<int>): (e: Event)
  {
    Event(id, Some(n.name), Some(n.dateStart), Some(n.dateEnd), n.ticket, n.text,
          n.ticketValue, n.eventualName, n.eventualDireccion, n.eventualCoords,
          n.eventualDistrito, n.suspendida, actividad, n.regla, n.reglaEr,
          n.ticketTipo, n.ticketValor, n.ticketPagaMenor4)
  }

  /** Create: the new row takes the id one past the largest id, and, when the
      request's activity is absent, the activity one past the largest activity.
      It is appended after every existing row, which stay as they were. */
  function Create(table: seq<Event>, n: NewEvent): (r: Created)
    requires |table| > 0
    ensures |r.table| == |table| + 1
    ensures r.table[..|table|] == table && r.table[|table|] == r.event
    ensures forall i :: 0 <= i < |table| ==> table[i].id < r.event.id
    ensures exists i :: 0 <= i < |table| && r.event.id == table[i].id + 1
    ensures !Falsy(n.actividad) ==> r.event.actividad == n.actividad
    ensures Falsy(n.actividad) ==>
              (r.event.actividad.None? <==> forall i :: 0 <= i < |table| ==> table[i].actividad.None?)
    ensures Falsy(n.actividad) && r.event.actividad.Some? ==>
              && (forall i :: 0 <= i < |table| && table[i].actividad.Some? ==>
                    table[i].actividad.value < r.event.actividad.value)
              && (exists i :: 0 <= i < |table| && table[i].actividad == Some(r.event.actividad.value - 1))
    ensures r.event == RowOf(n, r.event.id, r.event.actividad)
  {
    var actividad :=
      if !Falsy(n.actividad) then n.actividad
      else match MaxActividad(table)
        case None => None
        case Some(m) => Some(m + 1);
    var row := RowOf(n, MaxId(table) + 1, actividad);
    Created(table + [row], row)
  }

  /** Get by id: the rows with that id, in table order, or EventNotFound when there are none. */
  function GetById(table: seq<Event>, id: int): (r: Result<seq<Event>, Error>)
    ensures r.Failure? <==> !HasId(table, id)
    ensures r.Failure? ==> r.error == EventNotFound
    ensures r.Success? ==> IsSelection(r.value, table, IdMask(table, id))
    ensures r.Success? ==> forall e :: e in r.value <==> e in table && e.id == id
  {
    var mask := IdMask(table, id);
    var rows := Select(table, mask);
    SelectEmpty(table, mask);
    forall e
      ensures e in rows <==> e in table && e.id == id
    {
      SelectMembership(table, mask, e);
    }
    if |rows| == 0 then Failure(EventNotFound) else Success(rows)
  }

  /** Get by activity: the rows of that activity, in table order, or
      ActivityHasNoEvents when there are none. */
  function GetByActivity(table: seq<Event>, actividad: int): (r: Result<seq<Event>, Error>)
    ensures r.Failure? <==> !HasActividad(table, actividad)
    ensures r.Failure? ==> r.error == ActivityHasNoEvents
    ensures r.Success? ==> IsSelection(r.value, table, ActividadMask(table, actividad))
    ensures r.Success? ==> forall e :: e in r.value <==> e in table && e.actividad == Some(actividad)
  {
    var mask := ActividadMask(table, actividad);
    var rows := Select(table, mask);
    SelectEmpty(table, mask);
    forall e
      ensures e in rows <==> e in table && e.actividad == Some(actividad)
    {
      SelectMembership(table, mask, e);
    }
    if |rows| == 0 then Failure(ActivityHasNoEvents) else Success(rows)
  }

  /** The cell after a partial update: the supplied value, or the old cell when unset. */
  ghost predicate Written<T>(f: Field<T>, before: T, after: T)
  {
    if f.Set? then after == f.value else after == before
  }

  /** One row after a partial update: every supplied column takes its new
      value, every other column and the id keep theirs. */
  function ApplyEdit(e: Event, edit: EventEdit): (r: Event)
    ensures r.id == e.id
    ensures Written(edit.name, e.name, r.name)
    ensures Written(edit.dateStart, e.dateStart, r.dateStart)
    ensures Written(edit.dateEnd, e.dateEnd, r.dateEnd)
    ensures Written(edit.ticket, e.ticket, r.ticket)
    ensures Written(edit.text, e.text, r.text)
    ensures Written(edit.ticketValue, e.ticketValue, r.ticketValue)
    ensures Written(edit.eventualName, e.eventualName, r.eventualName)
    ensures Written(edit.eventualDireccion, e.eventualDireccion, r.eventualDireccion)
    ensures Written(edit.eventualCoords, e.eventualCoords, r.eventualCoords)
    ensures Written(edit.eventualDistrito, e.eventualDistrito, r.eventualDistrito)
    ensures Written(edit.suspendida, e.suspendida, r.suspendida)
    ensures Written(edit.actividad, e.actividad, r.actividad)
    ensures Written(edit.regla, e.regla, r.regla)
    ensures Written(edit.reglaEr, e.reglaEr, r.reglaEr)
    ensures Written(edit.ticketTipo, e.ticketTipo, r.ticketTipo)
    ensures Written(edit.ticketValor, e.ticketValor, r.ticketValor)
    ensures Written(edit.ticketPagaMenor4, e.ticketPagaMenor4, r.ticketPagaMenor4)
  {
    Event(e.id,
          Overwrite(edit.name, e.name),
          Overwrite(edit.dateStart, e.dateStart),
          Overwrite(edit.dateEnd, e.dateEnd),
          Overwrite(edit.ticket, e.ticket),
          Overwrite(edit.text, e.text),
          Overwrite(edit.ticketValue, e.ticketValue),
          Overwrite(edit.eventualName, e.eventualName),
          Overwrite(edit.eventualDireccion, e.eventualDireccion),
          Overwrite(edit.eventualCoords, e.eventualCoords),
          Overwrite(edit.eventualDistrito, e.eventualDistrito),
          Overwrite(edit.suspendida, e.suspendida),
          Overwrite(edit.actividad, e.actividad),
          Overwrite(edit.regla, e.regla),
          Overwrite(edit.reglaEr, e.reglaEr),
          Overwrite(edit.ticketTipo, e.ticketTipo),
          Overwrite(edit.ticketValor, e.ticketValor),
          Overwrite(edit.ticketPagaMenor4, e.ticketPagaMenor4))
  }

  /** Computes the cell `Written` describes. */
  function Overwrite<T>(f: Field<T>, cell: T): (after: T)
    ensures Written(f, cell, after)
  {
    match f
    case Set(v) => v
    case Unset => cell
  }

  /** Rewrites every row with id `id` by `f`; the other rows stay as they are. */
  function UpdateRows(table: seq<Event>, id: int, f: Event -> Event): (t: seq<Event>)
    ensures |t| == |table|
    ensures forall i :: 0 <= i < |table| && table[i].id != id ==> t[i] == table[i]
    ensures forall i :: 0 <= i < |table| && table[i].id == id ==> t[i] == f(table[i])
  {
    seq(|table|, i requires 0 <= i < |table| => if table[i].id == id then f(table[i]) else table[i])
  }

  /** Update by id: EventNotFound when no row has the id; otherwise every
      row with the id gets the supplied columns, nothing else changes, and the
      result lists those rows as they now read, in table order. */
  function Update(table: seq<Event>, id: int, edit: EventEdit): (r: Result<Changed, Error>)
    ensures r.Failure? <==> !HasId(table, id)
    ensures r.Failure? ==> r.error == EventNotFound
    ensures r.Success? ==> |r.value.table| == |table|
    ensures r.Success? ==> forall i :: 0 <= i < |table| && table[i].id != id ==> r.value.table[i] == table[i]
    ensures r.Success? ==> forall i :: 0 <= i < |table| && table[i].id == id ==>
                             r.value.table[i] == ApplyEdit(table[i], edit)
    ensures r.Success? ==> IsSelection(r.value.rows, r.value.table, IdMask(r.value.table, id))
  {
    if !HasId(table, id) then Failure(EventNotFound)
    else
      var updated := UpdateRows(table, id, (e: Event) => ApplyEdit(e, edit));
      Success(Changed(updated, Select(updated, IdMask(updated, id))))
  }

  /** Suspend by id: EventNotFound when no row has the id; otherwise every
      row with the id is marked suspended, nothing else changes, and the result
      lists those rows as they now read. */
  function Suspend(table: seq<Event>, id: int): (r: Result<Changed, Error>)
    ensures r.Failure? <==> !HasId(table, id)
    ensures r.Failure? ==> r.error == EventNotFound
    ensures r.Success? ==> |r.value.table| == |table|
    ensures r.Success? ==> forall i :: 0 <= i < |table| && table[i].id != id ==> r.value.table[i] == table[i]
    ensures r.Success? ==> forall i :: 0 <= i < |table| && table[i].id == id ==>
                             r.value.table[i] == table[i].(suspendida := true)
    ensures r.Success? ==> IsSelection(r.value.rows, r.value.table, IdMask(r.value.table, id))
    ensures r.Success? ==> |r.value.rows| > 0 && forall e :: e in r.value.rows ==> e.suspendida && e.id == id
  {
    if !HasId(table, id) then Failure(EventNotFound)
    else
      var updated := UpdateRows(table, id, (e: Event) => e.(suspendida := true));
      var mask := IdMask(updated, id);
      var rows := Select(updated, mask);
      SelectEmpty(updated, mask);
      forall e | e in rows
        ensures e.suspendida && e.id == id
      {
        SelectMembership(updated, mask, e);
      }
      Success(Changed(updated, rows))
  }

  // Properties of partial updates

  /** Combines two edits: a column supplied by `later` takes its value,
      otherwise the value `earlier` supplied, if any. */
  function Merge(earlier: EventEdit, later: EventEdit): (m: EventEdit)
  {
    EventEdit(
      if later.name.Set? then later.name else earlier.name,
      if later.dateStart.Set? then later.dateStart else earlier.dateStart,
      if later.dateEnd.Set? then later.dateEnd else earlier.dateEnd,
      if later.ticket.Set? then later.ticket else earlier.ticket,
      if later.text.Set? then later.text else earlier.text,
      if later.ticketValue.Set? then later.ticketValue else earlier.ticketValue,
      if later.eventualName.Set? then later.eventualName else earlier.eventualName,
      if later.eventualDireccion.Set? then later.eventualDireccion else earlier.eventualDireccion,
      if later.eventualCoords.Set? then later.eventualCoords else earlier.eventualCoords,
      if later.eventualDistrito.Set? then later.eventualDistrito else earlier.eventualDistrito,
      if later.suspendida.Set? then later.suspendida else earlier.suspendida,
      if later.actividad.Set? then later.actividad else earlier.actividad,
      if later.regla.Set? then later.regla else earlier.regla,
      if later.reglaEr.Set? then later.reglaEr else earlier.reglaEr,
      if later.ticketTipo.Set? then later.ticketTipo else earlier.ticketTipo,
      if later.ticketValor.Set? then later.ticketValor else earlier.ticketValor,
      if later.ticketPagaMenor4.Set? then later.ticketPagaMenor4 else earlier.ticketPagaMenor4)
  }

  /** An edit that supplies nothing leaves a row as it was. */
  lemma ApplyNoEdit(e: Event)
    ensures ApplyEdit(e, NoEdit) == e
  {
  }

  /** Applying one edit and then another is applying their merge. */
  lemma ApplyEditThen(e: Event, earlier: EventEdit, later: EventEdit)
    ensures ApplyEdit(ApplyEdit(e, earlier), later) == ApplyEdit(e, Merge(earlier, later))
  {
  }

  /** Applying an edit a second time changes nothing more. */
  lemma ApplyEditTwice(e: Event, edit: EventEdit)
    ensures ApplyEdit(ApplyEdit(e, edit), edit) == ApplyEdit(e, edit)
  {
    ApplyEditThen(e, edit, edit);
    assert Merge(edit, edit) == edit;
  }

  // Properties of the store operations

  /** A create keeps ids unique, since the new id exceeds every existing one. */
  lemma CreateKeepsIdsUnique(table: seq<Event>, n: NewEvent)
    requires |table| > 0 && UniqueIds(table)
    ensures UniqueIds(Create(table, n).table)
  {
  }

  /** In a table with unique ids, looking up an id that is present yields its one row. */
  lemma GetByIdUnique(table: seq<Event>, i: nat)
    requires i < |table| && UniqueIds(table)
    ensures GetById(table, table[i].id) == Success([table[i]])
  {
    SelectSingle(table, IdMask(table, table[i].id), i);
  }

  /** Looking up the id a create just assigned yields exactly the created row. */
  lemma CreatedEventIsFound(table: seq<Event>, n: NewEvent)
    requires |table| > 0
    ensures var c := Create(table, n);
            GetById(c.table, c.event.id) == Success([c.event])
  {
    var c := Create(table, n);
    SelectSingle(c.table, IdMask(c.table, c.event.id), |table|);
  }

  /** The rows an update returns are the rows a lookup returned before it, each edited. */
  lemma UpdateReturnsEditedRows(table: seq<Event>, id: int, edit: EventEdit)
    requires HasId(table, id)
    ensures var before := GetById(table, id).value;
            Update(table, id, edit).value.rows ==
              seq(|before|, k requires 0 <= k < |before| => ApplyEdit(before[k], edit))
  {
    var updated := Update(table, id, edit).value.table;
    assert IdMask(updated, id) == IdMask(table, id);
    SelectPointwise(table, updated, IdMask(table, id), (e: Event) => ApplyEdit(e, edit));
  }

  /** An update changes no id, so ids stay unique. */
  lemma UpdateKeepsIdsUnique(table: seq<Event>, id: int, edit: EventEdit)
    requires UniqueIds(table) && HasId(table, id)
    ensures UniqueIds(Update(table, id, edit).value.table)
  {
    var updated := Update(table, id, edit).value.table;
    assert forall i :: 0 <= i < |table| ==> updated[i].id == table[i].id;
  }

  /** Rewriting the rows with an id twice by a rewrite that keeps the id and
      settles after one step is rewriting them once. */
  lemma UpdateRowsTwice(table: seq<Event>, id: int, f: Event -> Event)
    requires forall e: Event :: e.id == id ==> f(e).id == id && f(f(e)) == f(e)
    ensures UpdateRows(UpdateRows(table, id, f), id, f) == UpdateRows(table, id, f)
  {
  }

  /** Repeating an update is the same as doing it once. */
  lemma UpdateIdempotent(table: seq<Event>, id: int, edit: EventEdit)
    requires HasId(table, id)
    ensures var once := Update(table, id, edit).value;
            Update(once.table, id, edit) == Success(once)
  {
    var f := (e: Event) => ApplyEdit(e, edit);
    forall e: Event
      ensures f(f(e)) == f(e)
    {
      ApplyEditTwice(e, edit);
    }
    UpdateRowsTwice(table, id, f);
    var i :| 0 <= i < |table| && table[i].id == id;
    assert UpdateRows(table, id, f)[i].id == id;
  }

  /** The edit that marks a row suspended and supplies nothing else. */
  const SuspendEdit := NoEdit.(suspendida := Set(true))

  /** Suspending is the update that supplies `suspendida = true` and nothing else. */
  lemma SuspendIsUpdate(table: seq<Event>, id: int)
    ensures Suspend(table, id) == Update(table, id, SuspendEdit)
  {
    if HasId(table, id) {
      var s, u := Suspend(table, id).value, Update(table, id, SuspendEdit).value;
      assert s.table == u.table;
    }
  }

  /** Suspending twice is the same as suspending once, with no error the second time. */
  lemma SuspendIdempotent(table: seq<Event>, id: int)
    requires HasId(table, id)
    ensures var once := Suspend(table, id).value;
            Suspend(once.table, id) == Success(once)
  {
    SuspendIsUpdate(table, id);
    UpdateIdempotent(table, id, SuspendEdit);
    SuspendIsUpdate(Suspend(table, id).value.table, id);
  }

  /** Suspension is not one-way: an update that supplies `suspendida = false`
      clears the flag on the rows with the id. */
  lemma UpdateCanLiftSuspension(table: seq<Event>, id: int)
    requires HasId(table, id)
    ensures var lifted := Update(Suspend(table, id).value.table, id, NoEdit.(suspendida := Set(false)));
            lifted.Success? && forall e :: e in lifted.value.rows ==> !e.suspendida
  {
    var s := Suspend(table, id).value;
    var lifted := Update(s.table, id, NoEdit.(suspendida := Set(false))).value;
    var mask := IdMask(lifted.table, id);
    forall e | e in lifted.rows
      ensures !e.suspendida
    {
      SelectMembership(lifted.table, mask, e);
    }
  }

  /** Create an event with only its required fields, suspend it, and look it
      up again: it has a fresh id, is not suspended and lets children under
      four in free when created, and the lookup returns it suspended. */
  lemma CreateSuspendLookup(table: seq<Event>, name: string, start: int, end: int)
    requires |table| > 0
    ensures var c := Create(table, MinimalNewEvent(name, start, end));
            && (forall i :: 0 <= i < |table| ==> table[i].id < c.event.id)
            && !c.event.suspendida && c.event.ticketPagaMenor4
            && Suspend(c.table, c.event.id) == Success(Changed(
                 c.table[|table| := c.event.(suspendida := true)], [c.event.(suspendida := true)]))
            && GetById(Suspend(c.table, c.event.id).value.table, c.event.id) ==
                 Success([c.event.(suspendida := true)])
  {
    var c := Create(table, MinimalNewEvent(name, start, end));
    var suspended := c.table[|table| := c.event.(suspendida := true)];
    var s := Suspend(c.table, c.event.id).value;
    assert s.table == suspended;
    SelectSingle(suspended, IdMask(suspended, c.event.id), |table|);
  }
}
