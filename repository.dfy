/**
 * The repository's deterministic part: record conversions, the event
 * query (category filter, date filter by mode, stable sort by date) and
 * the backup/restore content logic over the stored table.
 */
module Repository {
  import opened Wrappers
  import opened KotlinText
  import opened Seqs
  import opened Eventos
  import opened Database

  // ---------------------------------------------------------------------------
  // Conversions
  // ---------------------------------------------------------------------------

  /** `Evento.toEntity(recordatorio = "")`: a fresh row (id 0) carrying the reminder label. */
  function ToEntity(e: Evento, recordatorio: string := ""): (r: EventoEntity)
    ensures r.id == 0 && r.recordatorio == recordatorio
    ensures ToEvento(r) == e
  {
    EventoEntity(
      fecha := e.fecha,
      hora := e.hora,
      categoria := e.categoria,
      descripcion := e.descripcion,
      status := e.status,
      ubicacion := e.ubicacion,
      contacto := e.contacto,
      recordatorio := recordatorio)
  }

  /** `EventoEntity.toEvento()`: drops the id and the reminder label. */
  function ToEvento(x: EventoEntity): Evento {
    Evento(
      fecha := x.fecha,
      hora := x.hora,
      categoria := x.categoria,
      descripcion := x.descripcion,
      status := x.status,
      ubicacion := x.ubicacion,
      contacto := x.contacto)
  }

  /** Going through `Evento` loses exactly the id. */
  lemma EntityRoundTrip(x: EventoEntity)
    ensures ToEntity(ToEvento(x), x.recordatorio) == x.(id := 0)
  {
  }

  /** `loadEventos()`: the DAO listing, converted row by row. */
  function LoadEventos(rows: seq<EventoEntity>): (r: seq<Evento>)
    ensures |r| == |rows|
    ensures forall i :: 0 <= i < |rows| ==> r[i] == ToEvento(rows[i])
  {
    seq(|rows|, i requires 0 <= i < |rows| => ToEvento(rows[i]))
  }

  // ---------------------------------------------------------------------------
  // The query
  // ---------------------------------------------------------------------------

  /** The arguments of `getFilteredEventos`; `None` is Kotlin's `null`. */
  datatype Consulta = Consulta(
    tipoConsulta: int,
    fechaInicio: Option<string>,
    fechaFinal: Option<string>,
    anio: Option<string>,
    mes: Option<string>,
    categoria: Option<string>)

  /** The category that means "no category filter". */
  const Todas: string := "Todas"

  function CategoriaIs(categoria: string): Evento -> bool {
    (e: Evento) => e.categoria == categoria
  }

  function FechaEntre(inicio: string, fin: string): Evento -> bool {
    (e: Evento) => LexLe(inicio, e.fecha) && LexLe(e.fecha, fin)
  }

  function FechaEmpiezaCon(anio: string): Evento -> bool {
    (e: Evento) => anio <= e.fecha
  }

  function FechaEs(fecha: string): Evento -> bool {
    (e: Evento) => e.fecha == fecha
  }

  function FechaContiene(patron: string): Evento -> bool {
    (e: Evento) => Contains(e.fecha, patron)
  }

  /** Step 1: the category filter, applied only for a category other than "Todas". */
  function FiltrarCategoria(eventos: seq<Evento>, categoria: Option<string>): seq<Evento> {
    if categoria.Some? && categoria.value != Todas then Filter(eventos, CategoriaIs(categoria.value))
    else eventos
  }

  /** Step 2: the date filter chosen by `tipoConsulta`; a missing argument disables it. */
  function FiltrarFecha(eventos: seq<Evento>, q: Consulta): seq<Evento> {
    match q.tipoConsulta
    case 0 =>
      if q.fechaInicio.Some? && q.fechaFinal.Some? then
        Filter(eventos, FechaEntre(q.fechaInicio.value, q.fechaFinal.value))
      else eventos
    case 1 =>
      if q.anio.Some? then Filter(eventos, FechaEmpiezaCon(q.anio.value)) else eventos
    case 2 =>
      if q.fechaInicio.Some? then Filter(eventos, FechaEs(q.fechaInicio.value)) else eventos
    case 3 =>
      if q.mes.Some? then Filter(eventos, FechaContiene("-" + q.mes.value + "-")) else eventos
    case _ => eventos
  }

  /** Which events the query selects, stated per event. */
  predicate Matches(e: Evento, q: Consulta) {
    && (q.categoria.None? || q.categoria.value == Todas || e.categoria == q.categoria.value)
    && match q.tipoConsulta
       case 0 =>
         q.fechaInicio.Some? && q.fechaFinal.Some? ==>
           LexLe(q.fechaInicio.value, e.fecha) && LexLe(e.fecha, q.fechaFinal.value)
       case 1 => q.anio.Some? ==> q.anio.value <= e.fecha
       case 2 => q.fechaInicio.Some? ==> e.fecha == q.fechaInicio.value
       case 3 => q.mes.Some? ==> Contains(e.fecha, "-" + q.mes.value + "-")
       case _ => true
  }

  function MatchesQuery(q: Consulta): Evento -> bool {
    (e: Evento) => Matches(e, q)
  }

  function OrEmpty(o: Option<string>): string {
    if o.Some? then o.value else []
  }

  /** The category step keeps exactly the events of that category, unless it is off. */
  lemma {:induction false} FiltrarCategoriaKeeps(eventos: seq<Evento>, categoria: Option<string>, x: Evento)
    ensures x in FiltrarCategoria(eventos, categoria)
            <==> x in eventos && (categoria.None? || categoria.value == Todas || x.categoria == categoria.value)
  {
    if categoria.Some? && categoria.value != Todas {
      FilterMembership(eventos, CategoriaIs(categoria.value), x);
    }
  }

  /** The date step keeps exactly the events meeting the date condition of `Matches`. */
  lemma {:induction false} FiltrarFechaKeeps(eventos: seq<Evento>, q: Consulta, x: Evento)
    ensures x in FiltrarFecha(eventos, q) <==> x in eventos && Matches(x, q.(categoria := None))
  {
    match q.tipoConsulta
    case 0 =>
      if q.fechaInicio.Some? && q.fechaFinal.Some? {
        FilterMembership(eventos, FechaEntre(q.fechaInicio.value, q.fechaFinal.value), x);
      }
    case 1 =>
      if q.anio.Some? {
        FilterMembership(eventos, FechaEmpiezaCon(q.anio.value), x);
      }
    case 2 =>
      if q.fechaInicio.Some? {
        FilterMembership(eventos, FechaEs(q.fechaInicio.value), x);
      }
    case 3 =>
      if q.mes.Some? {
        FilterMembership(eventos, FechaContiene("-" + q.mes.value + "-"), x);
      }
    case _ =>
  }

  /** An event matches a query exactly when it survives both filtering steps on its own. */
  lemma {:induction false} MatchesBothSteps(e: Evento, q: Consulta)
    ensures Matches(e, q) <==> e in FiltrarFecha(FiltrarCategoria([e], q.categoria), q)
  {
    FiltrarCategoriaKeeps([e], q.categoria, e);
    FiltrarFechaKeeps(FiltrarCategoria([e], q.categoria), q, e);
  }

  /** The two filtering steps select exactly the events `Matches` describes, in input order. */
  lemma {:induction false} FiltersAreOneFilter(eventos: seq<Evento>, q: Consulta)
    ensures FiltrarFecha(FiltrarCategoria(eventos, q.categoria), q) == Filter(eventos, MatchesQuery(q))
  {
    var c := FiltrarCategoria(eventos, q.categoria);
    var catOn := q.categoria.Some? && q.categoria.value != Todas;
    var dateOn := match q.tipoConsulta
      case 0 => q.fechaInicio.Some? && q.fechaFinal.Some?
      case 1 => q.anio.Some?
      case 2 => q.fechaInicio.Some?
      case 3 => q.mes.Some?
      case _ => false;
    var datePred: Evento -> bool := match q.tipoConsulta
      case 0 => FechaEntre(OrEmpty(q.fechaInicio), OrEmpty(q.fechaFinal))
      case 1 => FechaEmpiezaCon(OrEmpty(q.anio))
      case 2 => FechaEs(OrEmpty(q.fechaInicio))
      case 3 => FechaContiene("-" + OrEmpty(q.mes) + "-")
      case _ => (e: Evento) => true;
    assert dateOn ==> FiltrarFecha(c, q) == Filter(c, datePred);
    assert !dateOn ==> FiltrarFecha(c, q) == c;
    if catOn {
      assert c == Filter(eventos, CategoriaIs(q.categoria.value));
      if dateOn {
        FilterFilter(eventos, CategoriaIs(q.categoria.value), datePred, MatchesQuery(q));
      } else {
        FilterSame(eventos, CategoriaIs(q.categoria.value), MatchesQuery(q));
      }
    } else {
      if dateOn {
        FilterSame(eventos, datePred, MatchesQuery(q));
      } else {
        FilterAll(eventos, MatchesQuery(q));
      }
    }
  }

  // Stable sort by date (`sortedBy { it.fecha }`).

  ghost predicate SortedByFecha(s: seq<Evento>) {
    forall i, j :: 0 <= i < j < |s| ==> LexLe(s[i].fecha, s[j].fecha)
  }

  /** The events of `s` on date `d`, in the order `s` has them. */
  function OnDate(s: seq<Evento>, d: string): seq<Evento> {
    Filter(s, FechaEs(d))
  }

  /** Places `x` before the first event whose date is not earlier than its own. */
  function Insert(x: Evento, t: seq<Evento>): seq<Evento> {
    if t == [] || LexLe(x.fecha, t[0].fecha) then [x] + t
    else [t[0]] + Insert(x, t[1..])
  }

  lemma {:induction false} InsertElements(x: Evento, t: seq<Evento>)
    ensures multiset(Insert(x, t)) == multiset(t) + multiset{x}
    decreases |t|
  {
    if t != [] && !LexLe(x.fecha, t[0].fecha) {
      assert t == [t[0]] + t[1..];
      InsertElements(x, t[1..]);
    }
  }

  lemma {:induction false} InsertSorted(x: Evento, t: seq<Evento>)
    requires SortedByFecha(t)
    ensures SortedByFecha(Insert(x, t))
    ensures multiset(Insert(x, t)) == multiset(t) + multiset{x}
    decreases |t|
  {
    InsertElements(x, t);
    if t == [] || LexLe(x.fecha, t[0].fecha) {
      SortedInFront(x, t);
    } else {
      var t' := t[1..];
      SortedTail(t);
      InsertSorted(x, t');
      LexLeTotal(x.fecha, t[0].fecha);
      SortedBehind(t[0], x, t');
      assert Insert(x, t) == [t[0]] + Insert(x, t');
    }
  }

  lemma {:induction false} SortedInFront(x: Evento, t: seq<Evento>)
    requires SortedByFecha(t)
    requires t == [] || LexLe(x.fecha, t[0].fecha)
    ensures SortedByFecha([x] + t)
  {
    var r := [x] + t;
    forall i, j | 0 <= i < j < |r| ensures LexLe(r[i].fecha, r[j].fecha) {
      if i == 0 && j > 1 {
        LexLeTransitive(x.fecha, t[0].fecha, t[j - 1].fecha);
      }
    }
  }

  lemma {:induction false} SortedTail(t: seq<Evento>)
    requires SortedByFecha(t) && t != []
    ensures SortedByFecha(t[1..])
  {
    var t' := t[1..];
    forall i, j | 0 <= i < j < |t'| ensures LexLe(t'[i].fecha, t'[j].fecha) {
      assert t'[i] == t[i + 1] && t'[j] == t[j + 1];
    }
  }

  /** The head of a sorted list is not later than anything in its tail. */
  lemma {:induction false} HeadBelowTail(y: Evento, t': seq<Evento>)
    requires SortedByFecha([y] + t')
    ensures forall z :: z in t' ==> LexLe(y.fecha, z.fecha)
  {
    var t := [y] + t';
    forall z | z in t' ensures LexLe(y.fecha, z.fecha) {
      var k :| 0 <= k < |t'| && t'[k] == z;
      assert t[0] == y && t[k + 1] == z;
    }
  }

  /** Anything not later than every element of a sorted list can head it. */
  lemma {:induction false} SortedCons(y: Evento, r: seq<Evento>)
    requires SortedByFecha(r)
    requires forall z :: z in r ==> LexLe(y.fecha, z.fecha)
    ensures SortedByFecha([y] + r)
  {
    var s := [y] + r;
    forall i, j | 0 <= i < j < |s| ensures LexLe(s[i].fecha, s[j].fecha) {
      if i == 0 {
        assert s[j] in r;
      } else {
        assert s[i] == r[i - 1] && s[j] == r[j - 1];
      }
    }
  }

  /** A bound on `x` and on all of `t` bounds every element of a list made of `t` and `x`. */
  lemma {:induction false} BelowAll(y: Evento, x: Evento, t: seq<Evento>, r: seq<Evento>)
    requires multiset(r) == multiset(t) + multiset{x}
    requires LexLe(y.fecha, x.fecha)
    requires forall z :: z in t ==> LexLe(y.fecha, z.fecha)
    ensures forall z :: z in r ==> LexLe(y.fecha, z.fecha)
  {
    forall z | z in r ensures LexLe(y.fecha, z.fecha) {
      assert z in multiset(r);
      if z != x {
        assert z in multiset(t);
      }
    }
  }

  /** `y`, not later than `x` or anything in `t'`, can head the sorted insertion of `x` into `t'`. */
  lemma {:induction false} SortedBehind(y: Evento, x: Evento, t': seq<Evento>)
    requires SortedByFecha([y] + t') && SortedByFecha(Insert(x, t'))
    requires LexLe(y.fecha, x.fecha)
    requires multiset(Insert(x, t')) == multiset(t') + multiset{x}
    ensures SortedByFecha([y] + Insert(x, t'))
  {
    var r' := Insert(x, t');
    HeadBelowTail(y, t');
    BelowAll(y, x, t', r');
    SortedCons(y, r');
  }

  /** Inserting keeps the per-date order, `x` coming first on its own date. */
  lemma {:induction false} InsertOnDate(x: Evento, t: seq<Evento>, d: string)
    ensures OnDate(Insert(x, t), d) == (if x.fecha == d then [x] else []) + OnDate(t, d)
    decreases |t|
  {
    if t == [] || LexLe(x.fecha, t[0].fecha) {
      FilterCons(x, t, FechaEs(d));
    } else {
      var y, t' := t[0], t[1..];
      assert t == [y] + t';
      var xs := if x.fecha == d then [x] else [];
      var ys := if y.fecha == d then [y] else [];
      assert xs == [] || ys == [] by {
        if x.fecha == d && y.fecha == d {
          LexLeRefl(d);
        }
      }
      calc {
        OnDate(Insert(x, t), d);
        { FilterCons(y, Insert(x, t'), FechaEs(d)); }
        ys + OnDate(Insert(x, t'), d);
        { InsertOnDate(x, t', d); }
        ys + (xs + OnDate(t', d));
        xs + (ys + OnDate(t', d));
        { FilterCons(y, t', FechaEs(d)); }
        xs + OnDate(t, d);
      }
    }
  }

  /**
   * `sortedBy { it.fecha }`: ordered by date, a permutation of the input,
   * and stable: on every date the events keep their input order.
   */
  function SortByFecha(s: seq<Evento>): (r: seq<Evento>)
    ensures SortedByFecha(r)
    ensures multiset(r) == multiset(s)
    ensures forall d :: OnDate(r, d) == OnDate(s, d)
  {
    if s == [] then []
    else
      var t := SortByFecha(s[1..]);
      InsertSorted(s[0], t);
      assert s == [s[0]] + s[1..];
      assert forall d :: OnDate(Insert(s[0], t), d) == OnDate(s, d) by {
        forall d ensures OnDate(Insert(s[0], t), d) == OnDate(s, d) {
          InsertOnDate(s[0], t, d);
          FilterCons(s[0], s[1..], FechaEs(d));
        }
      }
      Insert(s[0], t)
  }

  /**
   * `getFilteredEventos`: the events the query matches, with their
   * multiplicities, sorted by date, equal dates in input order.
   */
  function GetFilteredEventos(eventos: seq<Evento>, q: Consulta): (r: seq<Evento>)
    ensures SortedByFecha(r)
    ensures forall x :: multiset(r)[x] == if Matches(x, q) then multiset(eventos)[x] else 0
    ensures forall x :: x in r <==> x in eventos && Matches(x, q)
    ensures forall d :: OnDate(r, d) == OnDate(Filter(eventos, MatchesQuery(q)), d)
  {
    FiltersAreOneFilter(eventos, q);
    var selected := FiltrarFecha(FiltrarCategoria(eventos, q.categoria), q);
    assert forall x :: multiset(selected)[x] == if Matches(x, q) then multiset(eventos)[x] else 0 by {
      forall x ensures multiset(selected)[x] == if Matches(x, q) then multiset(eventos)[x] else 0 {
        FilterMultiset(eventos, MatchesQuery(q), x);
      }
    }
    var r := SortByFecha(selected);
    assert forall x :: x in r <==> multiset(r)[x] > 0;
    assert forall x :: x in eventos <==> multiset(eventos)[x] > 0;
    r
  }

  /**
   * With the table listed as the DAO lists it (date then time, both
   * descending), the events of one date come out latest time first.
   */
  lemma {:induction false} SameDateLatestTimeFirst(rows: seq<EventoEntity>, q: Consulta, d: string)
    requires InDaoOrder(rows)
    ensures var day := OnDate(GetFilteredEventos(LoadEventos(rows), q), d);
      forall i, j :: 0 <= i < j < |day| ==> LexLe(day[j].hora, day[i].hora)
  {
    var eventos := LoadEventos(rows);
    var before := (a: Evento, b: Evento) => LexLe(b.fecha, a.fecha) && (a.fecha == b.fecha ==> LexLe(b.hora, a.hora));
    assert Chain(eventos, before) by {
      forall i, j | 0 <= i < j < |eventos| ensures before(eventos[i], eventos[j]) {
        assert ListedBefore(rows[i], rows[j]);
      }
    }
    var selected := Filter(eventos, MatchesQuery(q));
    FilterChain(eventos, MatchesQuery(q), before);
    FilterChain(selected, FechaEs(d), before);
    var day := OnDate(selected, d);
    forall i, j | 0 <= i < j < |day| ensures LexLe(day[j].hora, day[i].hora) {
      assert day[i] in day && day[j] in day;
      assert before(day[i], day[j]);
    }
  }

  // Month mode on well-formed dates.

  /** `YYYY-MM-DD` with digits in every position but the two dashes. */
  predicate WellFormedFecha(f: string) {
    && |f| == 10 && f[4] == '-' && f[7] == '-'
    && forall i :: 0 <= i < 10 && i != 4 && i != 7 ==> '0' <= f[i] <= '9'
  }

  /** On a well-formed date, containing "-mes-" means the month field is `mes`, in any year. */
  lemma {:induction false} MonthPatternIsMonthField(f: string, mes: string)
    requires WellFormedFecha(f)
    ensures Contains(f, "-" + mes + "-") <==> f[5..7] == mes
  {
    var pat := "-" + mes + "-";
    ContainsAt(f, pat);
    if f[5..7] == mes {
      assert f[4..4 + |pat|] == pat;
      assert OccursAt(f, pat, 4);
    }
    if exists i :: OccursAt(f, pat, i) {
      var i :| OccursAt(f, pat, i);
      assert f[i] == pat[0] == '-';
      assert f[i + |pat| - 1] == pat[|pat| - 1] == '-';
      assert i == 4 && |pat| == 4;
      assert f[5..7] == f[i..i + |pat|][1..3] == mes;
    }
  }

  // ---------------------------------------------------------------------------
  // Backup and restore
  // ---------------------------------------------------------------------------

  /** The backup file's text: one `toTxtLine` per row, in listing order. */
  function BackupText(rows: seq<EventoEntity>): (text: string)
    ensures text == [] <==> rows == []
    ensures text != [] ==> text[|text| - 1] == '\n'
  {
    if rows == [] then []
    else BackupText(rows[..|rows| - 1]) + ToTxtLine(ToEvento(rows[|rows| - 1]))
  }

  lemma {:induction false} BackupTextStep(rows: seq<EventoEntity>, i: nat)
    requires i < |rows|
    ensures BackupText(rows[..i + 1]) == BackupText(rows[..i]) + ToTxtLine(ToEvento(rows[i]))
  {
    assert rows[..i + 1][..i] == rows[..i];
  }

  /** The rows a restore inserts: every line `fromTxtLine` accepts, in order, as a fresh row. */
  function ParseBackup(lines: seq<string>): (r: seq<EventoEntity>)
    ensures |r| <= |lines|
  {
    if lines == [] then []
    else
      ParseBackup(lines[..|lines| - 1])
        + match FromTxtLine(lines[|lines| - 1])
          case Some(e) => [ToEntity(e)]
          case None => []
  }

  lemma {:induction false} ParseBackupStep(lines: seq<string>, i: nat, evento: Option<Evento>)
    requires i < |lines| && evento == FromTxtLine(lines[i])
    ensures ParseBackup(lines[..i + 1])
            == ParseBackup(lines[..i]) + (if evento.Some? then [ToEntity(evento.value)] else [])
  {
    assert lines[..i + 1][..i] == lines[..i];
  }

  /** What `fromTxtLine` makes of each line, in line order. */
  function LineResults(lines: seq<string>): (r: seq<Option<Evento>>)
    ensures |r| == |lines|
  {
    if lines == [] then []
    else LineResults(lines[..|lines| - 1]) + [FromTxtLine(lines[|lines| - 1])]
  }

  lemma {:induction false} LineResultsAt(lines: seq<string>, i: nat)
    requires i < |lines|
    ensures LineResults(lines)[i] == FromTxtLine(lines[i])
    decreases |lines|
  {
    var n := |lines| - 1;
    if i < n {
      LineResultsAt(lines[..n], i);
    }
  }

  /**
   * The fresh rows of the accepted results, in order. `Collect(LineResults(lines))`
   * is `ParseBackup(lines)` (`ParseBackupCollects`); it is kept apart so that the
   * proofs about which lines are accepted never unfold `fromTxtLine`.
   */
  function Collect(results: seq<Option<Evento>>): (r: seq<EventoEntity>)
    ensures |r| <= |results|
  {
    if results == [] then []
    else
      var last := results[|results| - 1];
      Collect(results[..|results| - 1]) + (if last.Some? then [ToEntity(last.value)] else [])
  }

  lemma {:induction false} ParseBackupCollects(lines: seq<string>)
    ensures ParseBackup(lines) == Collect(LineResults(lines))
    decreases |lines|
  {
    if lines != [] {
      var n := |lines| - 1;
      ParseBackupCollects(lines[..n]);
      assert LineResults(lines)[..n] == LineResults(lines[..n]);
    }
  }

  /** The positions of the accepted results, in order. */
  function Accepted(results: seq<Option<Evento>>): (idx: seq<nat>)
    ensures forall k :: 0 <= k < |idx| ==> idx[k] < |results|
  {
    if results == [] then []
    else
      var n := |results| - 1;
      Accepted(results[..n]) + (if results[n].Some? then [n] else [])
  }

  /** Row `k` of `Collect` is the fresh row of the `k`-th accepted result. */
  lemma {:induction false} AcceptedRows(results: seq<Option<Evento>>)
    ensures var idx, r := Accepted(results), Collect(results);
      && |idx| == |r|
      && forall k :: 0 <= k < |idx| ==> results[idx[k]].Some? && r[k] == ToEntity(results[idx[k]].value)
    decreases |results|
  {
    if results != [] {
      var n := |results| - 1;
      var results' := results[..n];
      AcceptedRows(results');
      var idx, idx' := Accepted(results), Accepted(results');
      var r, r' := Collect(results), Collect(results');
      forall k | 0 <= k < |idx'|
        ensures results[idx[k]].Some? && r[k] == ToEntity(results[idx[k]].value)
      {
        assert idx[k] == idx'[k] && r[k] == r'[k] && results[idx[k]] == results'[idx'[k]];
      }
    }
  }

  lemma {:induction false} AcceptedIncreasing(results: seq<Option<Evento>>)
    ensures forall k, l :: 0 <= k < l < |Accepted(results)| ==> Accepted(results)[k] < Accepted(results)[l]
    decreases |results|
  {
    if results != [] {
      var n := |results| - 1;
      AcceptedIncreasing(results[..n]);
      var idx, idx' := Accepted(results), Accepted(results[..n]);
      forall k, l | 0 <= k < l < |idx| ensures idx[k] < idx[l] {
        if l < |idx'| {
          assert idx[k] == idx'[k] && idx[l] == idx'[l];
          assert idx'[k] < idx'[l];
        } else {
          assert idx[l] == n && k < |idx'| && idx[k] == idx'[k];
          assert idx'[k] < |results[..n]| == n;
        }
      }
    }
  }

  lemma {:induction false} AcceptedComplete(results: seq<Option<Evento>>)
    ensures forall i :: 0 <= i < |results| && results[i].Some? ==> i in Accepted(results)
    decreases |results|
  {
    if results != [] {
      var n := |results| - 1;
      var results' := results[..n];
      AcceptedComplete(results');
      forall i | 0 <= i < |results| && results[i].Some? ensures i in Accepted(results) {
        if i < n {
          assert results'[i] == results[i];
        }
      }
    }
  }

  /**
   * The collected rows are, in line order, `toEntity` of exactly the lines
   * `fromTxtLine` accepts (`idx` gives their line numbers), each a fresh
   * row with id 0 and no reminder.
   */
  lemma {:induction false} ParseBackupRows(lines: seq<string>) returns (idx: seq<nat>)
    ensures var r := ParseBackup(lines);
      && |idx| == |r|
      && (forall k :: 0 <= k < |idx| ==>
            idx[k] < |lines| && FromTxtLine(lines[idx[k]]).Some?
            && r[k] == ToEntity(FromTxtLine(lines[idx[k]]).value))
      && (forall k, l :: 0 <= k < l < |idx| ==> idx[k] < idx[l])
      && (forall i :: 0 <= i < |lines| && FromTxtLine(lines[i]).Some? ==> i in idx)
      && (forall k :: 0 <= k < |r| ==> r[k].id == 0 && r[k].recordatorio == "")
  {
    var results := LineResults(lines);
    ParseBackupCollects(lines);
    idx := Accepted(results);
    AcceptedRows(results);
    AcceptedIncreasing(results);
    AcceptedComplete(results);
    var r := ParseBackup(lines);
    forall k | 0 <= k < |idx|
      ensures idx[k] < |lines| && FromTxtLine(lines[idx[k]]).Some?
              && r[k] == ToEntity(FromTxtLine(lines[idx[k]]).value)
    {
      LineResultsAt(lines, idx[k]);
    }
    forall i | 0 <= i < |lines| && FromTxtLine(lines[i]).Some? ensures i in idx {
      LineResultsAt(lines, i);
    }
  }

  /** Nothing is restored exactly when no line parses. */
  lemma {:induction false} ParseBackupEmpty(lines: seq<string>)
    ensures ParseBackup(lines) == [] <==> forall i :: 0 <= i < |lines| ==> FromTxtLine(lines[i]).None?
    decreases |lines|
  {
    if lines != [] {
      var lines' := lines[..|lines| - 1];
      ParseBackupEmpty(lines');
      assert forall i :: 0 <= i < |lines'| ==> lines'[i] == lines[i];
    }
  }

  /** Records that survive a backup file: line-safe and free of line breaks. */
  predicate Storable(e: Evento) {
    LineSafe(e) && forall k :: 0 <= k < 7 ==> NoLineBreak(Fields(e)[k])
  }

  /** What a restore of a backup of `rows` puts in the table: each row, with a fresh id and no reminder. */
  function Reinserted(rows: seq<EventoEntity>): (r: seq<EventoEntity>)
    ensures |r| == |rows|
  {
    if rows == [] then []
    else Reinserted(rows[..|rows| - 1]) + [rows[|rows| - 1].(id := 0, recordatorio := "")]
  }

  /** The backup's lines without their terminators. */
  function JoinedLines(rows: seq<EventoEntity>): (r: seq<string>)
    ensures |r| == |rows|
  {
    if rows == [] then []
    else JoinedLines(rows[..|rows| - 1]) + [Join(Fields(ToEvento(rows[|rows| - 1])))]
  }

  lemma {:induction false} JoinNoLineBreak(parts: seq<string>)
    requires |parts| >= 1
    requires forall k :: 0 <= k < |parts| ==> NoLineBreak(parts[k])
    ensures NoLineBreak(Join(parts))
    decreases |parts|
  {
    if |parts| > 1 {
      JoinNoLineBreak(parts[1..]);
    }
  }

  lemma {:induction false} StorableLine(e: Evento)
    requires Storable(e)
    ensures NoLineBreak(Join(Fields(e)))
  {
    JoinNoLineBreak(Fields(e));
  }

  /**
   * Every row is storable, stated row by row from the end. It is the quantified
   * "every row is storable" (`AllStorableEach`) in the recursive shape of
   * `BackupText`, so that `BackupTextLines` can peel off one row at a time.
   */
  predicate AllStorable(rows: seq<EventoEntity>) {
    rows == [] || (AllStorable(rows[..|rows| - 1]) && Storable(ToEvento(rows[|rows| - 1])))
  }

  lemma {:induction false} AllStorableEach(rows: seq<EventoEntity>)
    requires forall i :: 0 <= i < |rows| ==> Storable(ToEvento(rows[i]))
    ensures AllStorable(rows)
    decreases |rows|
  {
    if rows != [] {
      var rows' := rows[..|rows| - 1];
      assert forall i :: 0 <= i < |rows'| ==> rows'[i] == rows[i];
      AllStorableEach(rows');
    }
  }

  lemma {:induction false} BackupTextLines(rows: seq<EventoEntity>, rest: string)
    requires AllStorable(rows)
    ensures ReadLines(BackupText(rows) + rest) == JoinedLines(rows) + ReadLines(rest)
    decreases |rows|
  {
    if rows == [] {
      assert BackupText(rows) + rest == rest;
    } else {
      var rows' := rows[..|rows| - 1];
      var e := ToEvento(rows[|rows| - 1]);
      var line := ToTxtLine(e);
      assert BackupText(rows) == BackupText(rows') + line;
      assert JoinedLines(rows) == JoinedLines(rows') + [Join(Fields(e))];
      BackupTextLines(rows', line + rest);
      LineThenRest(e, rest);
      ReadLinesShift(BackupText(rows'), line, rest, Join(Fields(e)), JoinedLines(rows'));
    }
  }

  /** One more line read in front of the rest, with what precedes it already read. */
  lemma {:induction false} ReadLinesShift(prefix: string, line: string, rest: string, j: string, done: seq<string>)
    requires ReadLines(prefix + (line + rest)) == done + ReadLines(line + rest)
    requires ReadLines(line + rest) == [j] + ReadLines(rest)
    ensures ReadLines(prefix + line + rest) == (done + [j]) + ReadLines(rest)
  {
    assert prefix + line + rest == prefix + (line + rest);
    var todo := ReadLines(rest);
    assert done + ([j] + todo) == (done + [j]) + todo;
  }

  /** A storable record's line is read back as one line, the rest following. */
  lemma {:induction false} LineThenRest(e: Evento, rest: string)
    requires Storable(e)
    ensures ReadLines(ToTxtLine(e) + rest) == [Join(Fields(e))] + ReadLines(rest)
  {
    var j := Join(Fields(e));
    StorableLine(e);
    ReadLinesLine(j, rest);
    assert ToTxtLine(e) + rest == j + "\n" + rest;
  }

  lemma {:induction false} ParseJoinedLines(rows: seq<EventoEntity>)
    requires AllStorable(rows)
    ensures ParseBackup(JoinedLines(rows)) == Reinserted(rows)
    decreases |rows|
  {
    if rows != [] {
      var rows' := rows[..|rows| - 1];
      var x := rows[|rows| - 1];
      var lines := JoinedLines(rows);
      var j := Join(Fields(ToEvento(x)));
      ParseJoinedLines(rows');
      assert ParseBackup(lines) == ParseBackup(JoinedLines(rows')) + [ToEntity(ToEvento(x))] by {
        assert lines[..|lines| - 1] == JoinedLines(rows');
        assert lines[|lines| - 1] == j;
        RoundTripUnterminated(ToEvento(x));
      }
    }
  }

  lemma {:induction false} RoundTripUnterminated(e: Evento)
    requires LineSafe(e)
    ensures FromTxtLine(Join(Fields(e))) == Some(e)
  {
    var j := Join(Fields(e));
    var line := j + "\n";
    assert FromTxtLine(line) == Some(e) by {
      RoundTrip(e);
    }
    assert Trim(line) == j by {
      JoinFieldsEnds(e);
      TrimNewlineTerminated(j);
    }
    assert FromTxtLine(Trim(line)) == FromTxtLine(line) by {
      FromTxtLineIgnoresOuterWhitespace(line);
    }
  }

  /**
   * Restoring the backup of a non-empty table of storable records succeeds
   * and reproduces the table, each row with a fresh id and no reminder.
   */
  lemma {:induction false} BackupThenRestore(rows: seq<EventoEntity>)
    requires rows != []
    requires forall i :: 0 <= i < |rows| ==> Storable(ToEvento(rows[i]))
    ensures ParseBackup(ReadLines(BackupText(rows))) == Reinserted(rows) != []
  {
    AllStorableEach(rows);
    BackupTextLines(rows, []);
    assert BackupText(rows) + [] == BackupText(rows);
    assert JoinedLines(rows) + [] == JoinedLines(rows);
    ParseJoinedLines(rows);
  }

  /** The repository over the `eventos` table, held as a sequence of rows. */
  class EventoRepository {
    var table: seq<EventoEntity>

    constructor (rows: seq<EventoEntity>)
      ensures table == rows
    {
      table := rows;
    }

    /**
     * `backupData()` / `createBackupFile()`: nothing for an empty table,
     * otherwise the text written to the file, one line per row.
     */
    method BackupData() returns (content: Option<string>)
      ensures content.None? <==> table == []
      ensures content.Some? ==> content.value == BackupText(table)
    {
      var eventos := table;
      if eventos == [] {
        return None;
      }
      var text := "";
      for i := 0 to |eventos|
        invariant text == BackupText(eventos[..i])
      {
        BackupTextStep(eventos, i);
        text := text + ToTxtLine(ToEvento(eventos[i]));
      }
      assert eventos[..|eventos|] == eventos;
      content := Some(text);
    }

    /**
     * `restoreFromBackupFile(uri)`, given the file's text (`None` when the
     * stream cannot be opened): keeps every line that parses; if none does,
     * reports failure and leaves the table alone, otherwise replaces the
     * whole table with them.
     */
    method RestoreFromBackupFile(contents: Option<string>) returns (restored: bool)
      modifies this
      ensures var parsed := ParseBackup(if contents.Some? then ReadLines(contents.value) else []);
        && (restored <==> parsed != [])
        && table == (if restored then parsed else old(table))
    {
      var lines := if contents.Some? then ReadLines(contents.value) else [];
      var eventos: seq<EventoEntity> := [];
      for i := 0 to |lines|
        invariant eventos == ParseBackup(lines[..i])
        invariant table == old(table)
      {
        var evento := FromTxtLine(lines[i]);
        ParseBackupStep(lines, i, evento);
        if evento.Some? {
          eventos := eventos + [ToEntity(evento.value)];
        }
      }
      assert lines[..|lines|] == lines;
      if eventos != [] {
        table := [];
        table := table + eventos;
        restored := true;
      } else {
        restored := false;
      }
    }
  }
}
