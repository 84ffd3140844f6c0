/** The rows of the event table and the request bodies that create, edit and
    search them. Every column the table may hold as missing is an `Option`. */
module Events {
  import opened Wrappers

  /** Ticket category of an event: free, paid, or pay-what-you-wish. */
  datatype EventType = Gratis | Paga | Gorra

  /** Pricing structure of a paid event. `TicketGratis` is the "GRATIS" value. */
  datatype TicketType = Fijo | Desde | PorMes | Agotadas | Total | PorVez | TicketGratis

  /** District code of the venue, one of the six accepted values 437 to 442. */
  datatype Distrito = D437 | D438 | D439 | D440 | D441 | D442

  /** One row of the event table. Timestamps are integers on a common clock. */
  datatype Event = Event(
    id: int,
    name: Option<string>,
    dateStart: Option<int>,
    dateEnd: Option<int>,
    ticket: Option<EventType>,
    text: Option<string>,
    ticketValue: Option<string>,
    eventualName: Option<string>,
    eventualDireccion: Option<string>,
    eventualCoords: Option<string>,
    eventualDistrito: Option<Distrito>,
    suspendida: bool,
    actividad: Option<int>,
    regla: int,
    reglaEr: Option<string>,
    ticketTipo: Option<TicketType>,
    ticketValor: Option<real>,
    ticketPagaMenor4: bool)

  /** The body of a create request. It carries no id: the store assigns one. */
  datatype NewEvent = NewEvent(
    name: string,
    dateStart: int,
    dateEnd: int,
    ticket: Option<EventType>,
    text: Option<string>,
    ticketValue: Option<string>,
    eventualName: Option<string>,
    eventualDireccion: Option<string>,
    eventualCoords: Option<string>,
    eventualDistrito: Option<Distrito>,
    suspendida: bool,
    actividad: Option<int>,
    regla: int,
    reglaEr: Option<string>,
    ticketTipo: Option<TicketType>,
    ticketValor: Option<real>,
    ticketPagaMenor4: bool)

  /** A create request that supplies only the three required fields; every
      other field takes its declared default. */
  function MinimalNewEvent(name: string, dateStart: int, dateEnd: int): (n: NewEvent)
  {
    NewEvent(name, dateStart, dateEnd, None, None, None, None, None, None, None,
             false, None, 0, None, None, None, true)
  }

  /** The body of a partial update: every column but the id, each either left
      unset or supplied with the new cell value (which may be missing). */
  datatype EventEdit = EventEdit(
    name: Field<Option<string>>,
    dateStart: Field<Option<int>>,
    dateEnd: Field<Option<int>>,
    ticket: Field<Option<EventType>>,
    text: Field<Option<string>>,
    ticketValue: Field<Option<string>>,
    eventualName: Field<Option<string>>,
    eventualDireccion: Field<Option<string>>,
    eventualCoords: Field<Option<string>>,
    eventualDistrito: Field<Option<Distrito>>,
    suspendida: Field<bool>,
    actividad: Field<Option<int>>,
    regla: Field<int>,
    reglaEr: Field<Option<string>>,
    ticketTipo: Field<Option<TicketType>>,
    ticketValor: Field<Option<real>>,
    ticketPagaMenor4: Field<bool>)

  /** An edit that supplies no field. */
  const NoEdit := EventEdit(Unset, Unset, Unset, Unset, Unset, Unset, Unset, Unset, Unset,
                            Unset, Unset, Unset, Unset, Unset, Unset, Unset, Unset)

  /** The body of a search request, in the order its keys are declared. A key
      left unset plays no part in the search; no default date window applies. */
  datatype SearchParams = SearchParams(
    name: Field<string>,
    ticket: Field<set<EventType>>,
    ticketTipo: Field<set<TicketType>>,
    ticketValorMin: Field<real>,
    ticketValorMax: Field<real>,
    ticketPagaMenor4: Field<bool>,
    dateStart: Field<int>,
    dateEnd: Field<int>,
    eventualDireccion: Field<string>,
    actividad: Field<int>)

  /** A search body that supplies no key. */
  const NoFilters := SearchParams(Unset, Unset, Unset, Unset, Unset, Unset, Unset, Unset, Unset, Unset)
}
