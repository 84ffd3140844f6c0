/** Multi-criteria search: the row mask built from the supplied keys of a
    search body, and the rows it selects. */
module Search {
  import opened Wrappers
  import opened Events
  import opened Text
  import opened Selection

  /** One supplied search key with its value. The constructor records the
      matching rule the key's value type and name lead to: a set tests
      membership, a string tests case-insensitive containment, the two date
      keys and the two ticket-value keys are bounds, anything else is equality. */
  datatype Criterion =
    | NameLike(query: string)
    | TicketIn(tickets: set<EventType>)
    | TicketTipoIn(tipos: set<TicketType>)
    | ValorAtLeast(min: real)
    | ValorAtMost(max: real)
    | PagaMenor4Is(flag: bool)
    | StartsFrom(start: int)
    | EndsBy(end: int)
    | DireccionLike(query: string)
    | ActividadIs(actividad: int)

  /** A missing text cell never contains anything. */
  predicate TextCellContains(cell: Option<string>, query: string)
  {
    cell.Some? && ContainsIgnoringCase(cell.value, query)
  }

  /** A missing cell is never in a set. */
  predicate CellIn<T>(cell: Option<T>, values: set<T>)
  {
    cell.Some? && cell.value in values
  }

  /** The search body that supplies only the key of `c`, with its value. */
  function KeyBody(c: Criterion): (p: SearchParams)
  {
    match c
    case NameLike(q) => NoFilters.(name := Set(q))
    case TicketIn(s) => NoFilters.(ticket := Set(s))
    case TicketTipoIn(s) => NoFilters.(ticketTipo := Set(s))
    case ValorAtLeast(v) => NoFilters.(ticketValorMin := Set(v))
    case ValorAtMost(v) => NoFilters.(ticketValorMax := Set(v))
    case PagaMenor4Is(b) => NoFilters.(ticketPagaMenor4 := Set(b))
    case StartsFrom(t) => NoFilters.(dateStart := Set(t))
    case EndsBy(t) => NoFilters.(dateEnd := Set(t))
    case DireccionLike(q) => NoFilters.(eventualDireccion := Set(q))
    case ActividadIs(a) => NoFilters.(actividad := Set(a))
  }

  /** Does row `e` pass the test of one supplied key? A missing cell fails
      every comparison. The test is the key-by-key meaning of the body that
      supplies that key alone. */
  function Holds(c: Criterion, e: Event): (r: bool)
    ensures r <==> Matches(KeyBody(c), e)
  {
    match c
    case NameLike(q) => TextCellContains(e.name, q)
    case TicketIn(s) => CellIn(e.ticket, s)
    case TicketTipoIn(s) => CellIn(e.ticketTipo, s)
    case ValorAtLeast(v) => e.ticketValor.Some? && e.ticketValor.value >= v
    case ValorAtMost(v) => e.ticketValor.Some? && e.ticketValor.value <= v
    case PagaMenor4Is(b) => e.ticketPagaMenor4 == b
    case StartsFrom(t) => e.dateStart.Some? && e.dateStart.value >= t
    case EndsBy(t) => e.dateEnd.Some? && e.dateEnd.value <= t
    case DireccionLike(q) => TextCellContains(e.eventualDireccion, q)
    case ActividadIs(a) => e.actividad == Some(a)
  }

  /** The criterion of search key number `k` in declaration order, or
      `None` when the caller left that key unset. */
  function Slot(p: SearchParams, k: nat): (slot: Option<Criterion>)
    requires k < 10
  {
    match k
    case 0 => if p.name.Set? then Some(NameLike(p.name.value)) else None
    case 1 => if p.ticket.Set? then Some(TicketIn(p.ticket.value)) else None
    case 2 => if p.ticketTipo.Set? then Some(TicketTipoIn(p.ticketTipo.value)) else None
    case 3 => if p.ticketValorMin.Set? then Some(ValorAtLeast(p.ticketValorMin.value)) else None
    case 4 => if p.ticketValorMax.Set? then Some(ValorAtMost(p.ticketValorMax.value)) else None
    case 5 => if p.ticketPagaMenor4.Set? then Some(PagaMenor4Is(p.ticketPagaMenor4.value)) else None
    case 6 => if p.dateStart.Set? then Some(StartsFrom(p.dateStart.value)) else None
    case 7 => if p.dateEnd.Set? then Some(EndsBy(p.dateEnd.value)) else None
    case 8 => if p.eventualDireccion.Set? then Some(DireccionLike(p.eventualDireccion.value)) else None
    case _ => if p.actividad.Set? then Some(ActividadIs(p.actividad.value)) else None
  }

  /** The slots of all ten search keys, in declaration order. */
  function KeySlots(p: SearchParams): (slots: seq<Option<Criterion>>)
    ensures |slots| == 10
    ensures forall k :: 0 <= k < 10 ==> slots[k] == Slot(p, k)
  {
    seq(10, k requires 0 <= k < 10 => Slot(p, k))
  }

  /** A value of a non-empty sequence stands in its prefix or at its end. */
  lemma InPrefixOrLast<T>(s: seq<T>)
    requires |s| > 0
    ensures forall x :: x in s <==> x in s[..|s| - 1] || x == s[|s| - 1]
  {
    assert s == s[..|s| - 1] + [s[|s| - 1]];
  }

  /** Which slots are filled. */
  function FilledMask(slots: seq<Option<Criterion>>): (m: seq<bool>)
    ensures |m| == |slots|
    ensures forall k :: 0 <= k < |slots| ==> (m[k] <==> slots[k].Some?)
  {
    seq(|slots|, k requires 0 <= k < |slots| => slots[k].Some?)
  }

  /** The criteria of the filled slots, in slot order: the `k`-th criterion is
      the value of the `k`-th filled slot. */
  function Present(slots: seq<Option<Criterion>>): (cs: seq<Criterion>)
    ensures |cs| <= |slots|  // follows from the next two and the contract of Indices; kept for callers
    ensures |cs| == |Indices(FilledMask(slots))|
    ensures forall k :: 0 <= k < |cs| ==> slots[Indices(FilledMask(slots))[k]] == Some(cs[k])
    ensures cs == [] <==> forall k :: 0 <= k < |slots| ==> slots[k].None?
    ensures forall c :: c in cs <==> Some(c) in slots
  {
    if |slots| == 0 then []
    else
      var n := |slots| - 1;
      var rest := Present(slots[..n]);
      assert FilledMask(slots)[..n] == FilledMask(slots[..n]);
      InPrefixOrLast(slots);
      match slots[n]
      case Some(c) => rest + [c]
      case None => rest
  }

  /** The supplied keys of a search body, in declaration order. Keys the
      caller left unset contribute nothing. */
  function Criteria(p: SearchParams): (cs: seq<Criterion>)
    ensures |cs| <= 10
  {
    Present(KeySlots(p))
  }

  /** The test of one criterion applied to every row. */
  function CriterionMask(table: seq<Event>, c: Criterion): (m: seq<bool>)
    ensures |m| == |table|
    ensures forall i :: 0 <= i < |table| ==> m[i] == Holds(c, table[i])
  {
    seq(|table|, i requires 0 <= i < |table| => Holds(c, table[i]))
  }

  /** Every criterion of `cs` holds of row `e`. */
  ghost predicate AllHold(cs: seq<Criterion>, e: Event)
  {
    forall c :: c in cs ==> Holds(c, e)
  }

  /** The row mask: it starts with every row selected and is narrowed by the
      test of each supplied criterion in turn. */
  function ParseParams(table: seq<Event>, cs: seq<Criterion>): (mask: seq<bool>)
    ensures |mask| == |table|
    ensures forall i :: 0 <= i < |table| ==> (mask[i] <==> AllHold(cs, table[i]))
  {
    if |cs| == 0 then AllTrue(|table|)
    else
      var last := cs[|cs| - 1];
      assert forall c :: c in cs ==> c in cs[..|cs| - 1] || c == last by {
        assert cs == cs[..|cs| - 1] + [last];
      }
      And(ParseParams(table, cs[..|cs| - 1]), CriterionMask(table, last))
  }

  /** The meaning of a search body, key by key: a row matches iff it passes
      the test of every key the caller supplied. */
  function Matches(p: SearchParams, e: Event): (r: bool)
    ensures p == NoFilters ==> r
    ensures r ==> && (p.name.Set? ==> e.name.Some?)
                  && (p.ticket.Set? ==> e.ticket.Some?)
                  && (p.ticketTipo.Set? ==> e.ticketTipo.Some?)
                  && (p.ticketValorMin.Set? || p.ticketValorMax.Set? ==> e.ticketValor.Some?)
                  && (p.dateStart.Set? ==> e.dateStart.Some?)
                  && (p.dateEnd.Set? ==> e.dateEnd.Some?)
                  && (p.eventualDireccion.Set? ==> e.eventualDireccion.Some?)
                  && (p.actividad.Set? ==> e.actividad.Some?)
  {
    && (p.name.Set? ==> TextCellContains(e.name, p.name.value))
    && (p.ticket.Set? ==> CellIn(e.ticket, p.ticket.value))
    && (p.ticketTipo.Set? ==> CellIn(e.ticketTipo, p.ticketTipo.value))
    && (p.ticketValorMin.Set? ==> e.ticketValor.Some? && e.ticketValor.value >= p.ticketValorMin.value)
    && (p.ticketValorMax.Set? ==> e.ticketValor.Some? && e.ticketValor.value <= p.ticketValorMax.value)
    && (p.ticketPagaMenor4.Set? ==> e.ticketPagaMenor4 == p.ticketPagaMenor4.value)
    && (p.dateStart.Set? ==> e.dateStart.Some? && e.dateStart.value >= p.dateStart.value)
    && (p.dateEnd.Set? ==> e.dateEnd.Some? && e.dateEnd.value <= p.dateEnd.value)
    && (p.eventualDireccion.Set? ==> TextCellContains(e.eventualDireccion, p.eventualDireccion.value))
    && (p.actividad.Set? ==> e.actividad == Some(p.actividad.value))
  }

  /** The criterion of every filled slot holds of row `e`. */
  ghost predicate FilledSlotsHold(slots: seq<Option<Criterion>>, e: Event)
  {
    forall k :: 0 <= k < |slots| && slots[k].Some? ==> Holds(slots[k].value, e)
  }

  /** The criteria kept from some slots all hold iff every filled slot's criterion holds. */
  lemma AllHoldPresent(slots: seq<Option<Criterion>>, e: Event)
    ensures AllHold(Present(slots), e) <==> FilledSlotsHold(slots, e)
  {
    var cs := Present(slots);
    if AllHold(cs, e) {
      forall k | 0 <= k < |slots| && slots[k].Some?
        ensures Holds(slots[k].value, e)
      {
        assert slots[k].value in cs;
      }
    }
    if FilledSlotsHold(slots, e) {
      forall c | c in cs
        ensures Holds(c, e)
      {
        var k :| 0 <= k < |slots| && slots[k] == Some(c);
      }
    }
  }

  /** A row matches a search body iff the criterion of every supplied key holds of it. */
  lemma MatchesBySlots(p: SearchParams, e: Event)
    ensures Matches(p, e) <==> FilledSlotsHold(KeySlots(p), e)
  {
    if FilledSlotsHold(KeySlots(p), e) {
      MatchOfFilledSlots(p, e);
    }
    if Matches(p, e) {
      forall k | 0 <= k < 10 && KeySlots(p)[k].Some?
        ensures Holds(KeySlots(p)[k].value, e)
      {
        SlotHoldsOfMatch(p, e, k);
      }
    }
  }

  /** One direction of `MatchesBySlots`: every filled slot holding gives a match. */
  lemma MatchOfFilledSlots(p: SearchParams, e: Event)
    requires FilledSlotsHold(KeySlots(p), e)
    ensures Matches(p, e)
  {
    FirstKeysOfFilledSlots(p, e);
    LastKeysOfFilledSlots(p, e);
  }

  /** The first five keys of `Matches`, from the filled slots. */
  lemma FirstKeysOfFilledSlots(p: SearchParams, e: Event)
    requires FilledSlotsHold(KeySlots(p), e)
    ensures p.name.Set? ==> TextCellContains(e.name, p.name.value)
    ensures p.ticket.Set? ==> CellIn(e.ticket, p.ticket.value)
    ensures p.ticketTipo.Set? ==> CellIn(e.ticketTipo, p.ticketTipo.value)
    ensures p.ticketValorMin.Set? ==> e.ticketValor.Some? && e.ticketValor.value >= p.ticketValorMin.value
    ensures p.ticketValorMax.Set? ==> e.ticketValor.Some? && e.ticketValor.value <= p.ticketValorMax.value
  {
    if p.name.Set? { FilledSlotHolds(p, e, 0); }
    if p.ticket.Set? { FilledSlotHolds(p, e, 1); }
    if p.ticketTipo.Set? { FilledSlotHolds(p, e, 2); }
    if p.ticketValorMin.Set? { FilledSlotHolds(p, e, 3); }
    if p.ticketValorMax.Set? { FilledSlotHolds(p, e, 4); }
  }

  /** The last five keys of `Matches`, from the filled slots. */
  lemma LastKeysOfFilledSlots(p: SearchParams, e: Event)
    requires FilledSlotsHold(KeySlots(p), e)
    ensures p.ticketPagaMenor4.Set? ==> e.ticketPagaMenor4 == p.ticketPagaMenor4.value
    ensures p.dateStart.Set? ==> e.dateStart.Some? && e.dateStart.value >= p.dateStart.value
    ensures p.dateEnd.Set? ==> e.dateEnd.Some? && e.dateEnd.value <= p.dateEnd.value
    ensures p.eventualDireccion.Set? ==> TextCellContains(e.eventualDireccion, p.eventualDireccion.value)
    ensures p.actividad.Set? ==> e.actividad == Some(p.actividad.value)
  {
    if p.ticketPagaMenor4.Set? { FilledSlotHolds(p, e, 5); }
    if p.dateStart.Set? { FilledSlotHolds(p, e, 6); }
    if p.dateEnd.Set? { FilledSlotHolds(p, e, 7); }
    if p.eventualDireccion.Set? { FilledSlotHolds(p, e, 8); }
    if p.actividad.Set? { FilledSlotHolds(p, e, 9); }
  }

  /** The criterion of filled slot `k` holds. */
  lemma FilledSlotHolds(p: SearchParams, e: Event, k: nat)
    requires FilledSlotsHold(KeySlots(p), e) && k < 10 && Slot(p, k).Some?
    ensures Holds(Slot(p, k).value, e)
  {
    assert KeySlots(p)[k] == Slot(p, k);
  }

  /** The other direction, one key at a time: a match makes each filled slot hold. */
  lemma SlotHoldsOfMatch(p: SearchParams, e: Event, k: nat)
    requires Matches(p, e) && k < 10 && KeySlots(p)[k].Some?
    ensures Holds(KeySlots(p)[k].value, e)
  {
  }

  /** With no key supplied there are no criteria. */
  lemma NoCriteriaWithoutFilters(p: SearchParams)
    ensures Criteria(p) == [] <==> p == NoFilters
  {
    var slots := KeySlots(p);
    if Criteria(p) == [] {
      assert slots[0].None? && slots[1].None? && slots[2].None? && slots[3].None? && slots[4].None?;
      assert slots[5].None? && slots[6].None? && slots[7].None? && slots[8].None? && slots[9].None?;
    }
  }

  /** The criteria of a search body hold of a row exactly when the row matches it. */
  lemma CriteriaMeaning(p: SearchParams, e: Event)
    ensures AllHold(Criteria(p), e) <==> Matches(p, e)
  {
    AllHoldPresent(KeySlots(p), e);
    MatchesBySlots(p, e);
  }

  /** `Matches` applied to every row. */
  function MatchMask(table: seq<Event>, p: SearchParams): (m: seq<bool>)
    ensures |m| == |table|
    ensures forall i :: 0 <= i < |table| ==> m[i] == Matches(p, table[i])
  {
    seq(|table|, i requires 0 <= i < |table| => Matches(p, table[i]))
  }

  /** The search: the rows the mask of the supplied keys selects. They are
      exactly the rows that match every supplied key, in table order. */
  function SearchEvents(table: seq<Event>, p: SearchParams): (r: seq<Event>)
    ensures IsSelection(r, table, MatchMask(table, p))
    ensures forall e :: e in r <==> e in table && Matches(p, e)
  {
    var mask := ParseParams(table, Criteria(p));
    ParseParamsMeaning(table, p);
    forall e
      ensures e in Select(table, mask) <==> e in table && Matches(p, e)
    {
      SelectMembership(table, mask, e);
    }
    Select(table, mask)
  }

  /** The mask built from the supplied keys is the key-by-key match of every row. */
  lemma ParseParamsMeaning(table: seq<Event>, p: SearchParams)
    ensures ParseParams(table, Criteria(p)) == MatchMask(table, p)
  {
    var mask := ParseParams(table, Criteria(p));
    forall i | 0 <= i < |table|
      ensures mask[i] == Matches(p, table[i])
    {
      CriteriaMeaning(p, table[i]);
    }
  }

  /** With no supplied key the search returns the whole table, unfiltered. */
  lemma SearchWithoutFilters(table: seq<Event>)
    ensures SearchEvents(table, NoFilters) == table
  {
    SelectAll(table, MatchMask(table, NoFilters));
  }

  /** `q` supplies every key `p` supplies, with the same value. */
  predicate Refines(q: SearchParams, p: SearchParams)
  {
    && (p.name.Set? ==> q.name == p.name)
    && (p.ticket.Set? ==> q.ticket == p.ticket)
    && (p.ticketTipo.Set? ==> q.ticketTipo == p.ticketTipo)
    && (p.ticketValorMin.Set? ==> q.ticketValorMin == p.ticketValorMin)
    && (p.ticketValorMax.Set? ==> q.ticketValorMax == p.ticketValorMax)
    && (p.ticketPagaMenor4.Set? ==> q.ticketPagaMenor4 == p.ticketPagaMenor4)
    && (p.dateStart.Set? ==> q.dateStart == p.dateStart)
    && (p.dateEnd.Set? ==> q.dateEnd == p.dateEnd)
    && (p.eventualDireccion.Set? ==> q.eventualDireccion == p.eventualDireccion)
    && (p.actividad.Set? ==> q.actividad == p.actividad)
  }

  /** Supplying more keys only narrows the result. */
  lemma SearchNarrowing(table: seq<Event>, p: SearchParams, q: SearchParams)
    requires Refines(q, p)
    ensures forall e :: e in SearchEvents(table, q) ==> e in SearchEvents(table, p)
  {
    forall e | Matches(q, e)
      ensures Matches(p, e)
    {
      RefinedMatch(p, q, e);
    }
  }

  /** Per row: a row that matches a refining body matches the body it refines. */
  lemma RefinedMatch(p: SearchParams, q: SearchParams, e: Event)
    requires Refines(q, p) && Matches(q, e)
    ensures Matches(p, e)
  {
  }

  /** Two search bodies that every row of the table matches alike give the same result. */
  lemma SearchDeterminedByMatches(table: seq<Event>, p: SearchParams, q: SearchParams)
    requires forall i :: 0 <= i < |table| ==> Matches(p, table[i]) == Matches(q, table[i])
    ensures SearchEvents(table, p) == SearchEvents(table, q)
  {
    assert MatchMask(table, p) == MatchMask(table, q);
  }

  /** Per row: the letter case of a text query never changes whether the row matches. */
  lemma MatchIgnoresQueryCase(p: SearchParams, e: Event, query: string)
    ensures Matches(p.(name := Set(Upper(query))), e) == Matches(p.(name := Set(query)), e)
    ensures Matches(p.(name := Set(Lower(query))), e) == Matches(p.(name := Set(query)), e)
    ensures Matches(p.(eventualDireccion := Set(Upper(query))), e) == Matches(p.(eventualDireccion := Set(query)), e)
  {
    if e.name.Some? {
      CaseOfQueryAndTextIrrelevant(e.name.value, query);
    }
    if e.eventualDireccion.Some? {
      CaseOfQueryAndTextIrrelevant(e.eventualDireccion.value, query);
    }
  }

  /** The name filter ignores letter case: querying "PARK" or "park" selects the same rows. */
  lemma NameSearchIgnoresCase(table: seq<Event>, p: SearchParams, query: string)
    ensures SearchEvents(table, p.(name := Set(Upper(query)))) == SearchEvents(table, p.(name := Set(query)))
    ensures SearchEvents(table, p.(name := Set(Lower(query)))) == SearchEvents(table, p.(name := Set(query)))
  {
    var up, low, q := p.(name := Set(Upper(query))), p.(name := Set(Lower(query))), p.(name := Set(query));
    forall i | 0 <= i < |table|
      ensures Matches(up, table[i]) == Matches(q, table[i]) == Matches(low, table[i])
    {
      MatchIgnoresQueryCase(p, table[i], query);
    }
    SearchDeterminedByMatches(table, up, q);
    SearchDeterminedByMatches(table, low, q);
  }

  /** The address filter ignores letter case likewise. */
  lemma DireccionSearchIgnoresCase(table: seq<Event>, p: SearchParams, query: string)
    ensures SearchEvents(table, p.(eventualDireccion := Set(Upper(query)))) ==
            SearchEvents(table, p.(eventualDireccion := Set(query)))
  {
    var up, q := p.(eventualDireccion := Set(Upper(query))), p.(eventualDireccion := Set(query));
    forall i | 0 <= i < |table|
      ensures Matches(up, table[i]) == Matches(q, table[i])
    {
      MatchIgnoresQueryCase(p, table[i], query);
    }
    SearchDeterminedByMatches(table, up, q);
  }
}
