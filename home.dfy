/**
 * The home screen's split of the stored events into today, the rest of
 * this week and later. Dates are day numbers: the "yyyy-MM-dd" parse of the
 * device's locale is a parameter, as are today's formatted date, its day
 * number, its weekday and the locale's first day of the week.
 */
module Home {
  import opened Wrappers
  import opened Seqs
  import opened Database

  /** `Calendar.SUNDAY`; weekdays run from SUNDAY = 1 to SATURDAY = 7. */
  const Sunday: int := 1

  predicate IsWeekday(w: int) {
    1 <= w <= 7
  }

  /** The weekday `n` days after a day whose weekday is `w`. */
  function WeekdayAfter(w: int, n: nat): (r: int)
    requires IsWeekday(w)
    ensures IsWeekday(r)
  {
    (w - 1 + n) % 7 + 1
  }

  /** The end of this week: the first Sunday on or after today. */
  function FinSemana(hoyDay: int, hoyWeekday: int): (fin: int)
    requires IsWeekday(hoyWeekday)
    ensures hoyDay <= fin < hoyDay + 7
  {
    hoyDay + (8 - hoyWeekday) % 7
  }

  /** `FinSemana` is a Sunday and no earlier day from today on is. */
  lemma FinSemanaIsFirstSunday(hoyDay: int, hoyWeekday: int)
    requires IsWeekday(hoyWeekday)
    ensures WeekdayAfter(hoyWeekday, FinSemana(hoyDay, hoyWeekday) - hoyDay) == Sunday
    ensures forall n: nat :: n < FinSemana(hoyDay, hoyWeekday) - hoyDay ==> WeekdayAfter(hoyWeekday, n) != Sunday
    ensures hoyWeekday == Sunday <==> FinSemana(hoyDay, hoyWeekday) == hoyDay
  {
  }

  /** Where a weekday falls in a week starting on `firstDayOfWeek` (0 to 6). */
  function WeekPosition(w: int, firstDayOfWeek: int): (p: int)
    requires IsWeekday(w) && IsWeekday(firstDayOfWeek)
    ensures 0 <= p < 7
  {
    (w - firstDayOfWeek + 7) % 7
  }

  /**
   * `calendar.set(DAY_OF_WEEK, SUNDAY)` on today, then one week later if
   * that lands before today: the Sunday of today's calendar week, whichever
   * day the locale starts its weeks on, moved forward when already past.
   */
  function CalendarWeekEnd(hoyDay: int, hoyWeekday: int, firstDayOfWeek: int): (fin: int)
    requires IsWeekday(hoyWeekday) && IsWeekday(firstDayOfWeek)
    ensures fin == FinSemana(hoyDay, hoyWeekday)
  {
    var sunday := hoyDay + WeekPosition(Sunday, firstDayOfWeek) - WeekPosition(hoyWeekday, firstDayOfWeek);
    if sunday < hoyDay then sunday + 7 else sunday
  }

  /** The three lists, and the events that land in none. */
  datatype Bucket = Hoy | Semana | Futuros | Ninguno

  /**
   * The branch one event takes: skipped when its date does not parse, today
   * when its text equals today's, this week when strictly after today and
   * not after the week end, later when after the week end, else nowhere.
   */
  function Clasificar(e: EventoEntity, hoyStr: string, hoyDay: int, finSemana: int,
                      parseDate: string -> Option<int>): (b: Bucket)
    ensures b != Ninguno ==> parseDate(e.fecha).Some?
    ensures b == Hoy <==> parseDate(e.fecha).Some? && e.fecha == hoyStr
    ensures b == Semana ==> hoyDay < parseDate(e.fecha).value <= finSemana
    ensures b == Futuros ==> finSemana < parseDate(e.fecha).value
  {
    match parseDate(e.fecha)
    case None => Ninguno
    case Some(fechaEvento) =>
      if e.fecha == hoyStr then Hoy
      else if fechaEvento > hoyDay && fechaEvento <= finSemana then Semana
      else if fechaEvento > finSemana then Futuros
      else Ninguno
  }

  function InBucket(b: Bucket, hoyStr: string, hoyDay: int, finSemana: int,
                    parseDate: string -> Option<int>): EventoEntity -> bool
  {
    (e: EventoEntity) => Clasificar(e, hoyStr, hoyDay, finSemana, parseDate) == b
  }

  /**
   * `separarEventosPorFecha`: each list holds, in input order, exactly the
   * events classified into it against the first Sunday on or after today.
   */
  method SepararEventosPorFecha(eventos: seq<EventoEntity>, hoyStr: string, hoyDay: int,
                                hoyWeekday: int, firstDayOfWeek: int,
                                parseDate: string -> Option<int>)
    returns (hoy: seq<EventoEntity>, semana: seq<EventoEntity>, futuros: seq<EventoEntity>)
    requires IsWeekday(hoyWeekday) && IsWeekday(firstDayOfWeek)
    ensures var fin := FinSemana(hoyDay, hoyWeekday);
      && hoy == Filter(eventos, InBucket(Hoy, hoyStr, hoyDay, fin, parseDate))
      && semana == Filter(eventos, InBucket(Semana, hoyStr, hoyDay, fin, parseDate))
      && futuros == Filter(eventos, InBucket(Futuros, hoyStr, hoyDay, fin, parseDate))
  {
    var finSemana := CalendarWeekEnd(hoyDay, hoyWeekday, firstDayOfWeek);
    ghost var enHoy := InBucket(Hoy, hoyStr, hoyDay, finSemana, parseDate);
    ghost var enSemana := InBucket(Semana, hoyStr, hoyDay, finSemana, parseDate);
    ghost var enFuturos := InBucket(Futuros, hoyStr, hoyDay, finSemana, parseDate);
    hoy, semana, futuros := [], [], [];
    for i := 0 to |eventos|
      invariant hoy == Filter(eventos[..i], enHoy)
      invariant semana == Filter(eventos[..i], enSemana)
      invariant futuros == Filter(eventos[..i], enFuturos)
    {
      var evento := eventos[i];
      assert eventos[..i + 1] == eventos[..i] + [evento];
      ghost var bucket := Clasificar(evento, hoyStr, hoyDay, finSemana, parseDate);
      FilterSnoc(eventos[..i], evento, enHoy);
      FilterSnoc(eventos[..i], evento, enSemana);
      FilterSnoc(eventos[..i], evento, enFuturos);
      assert enHoy(evento) == (bucket == Hoy) && enSemana(evento) == (bucket == Semana)
        && enFuturos(evento) == (bucket == Futuros);
      var fechaEvento := parseDate(evento.fecha);
      if fechaEvento.None? {
        assert bucket == Ninguno;
        continue;
      }
      if evento.fecha == hoyStr {
        assert bucket == Hoy;
        hoy := hoy + [evento];
      } else if fechaEvento.value > hoyDay && fechaEvento.value <= finSemana {
        assert bucket == Semana;
        semana := semana + [evento];
      } else if fechaEvento.value > finSemana {
        assert bucket == Futuros;
        futuros := futuros + [evento];
      } else {
        assert bucket == Ninguno;
      }
    }
    assert eventos[..|eventos|] == eventos;
  }

  /** An event is dropped exactly when its date does not parse, or it is not today's text and not after today. */
  lemma DroppedExactly(e: EventoEntity, hoyStr: string, hoyDay: int, hoyWeekday: int,
                       parseDate: string -> Option<int>)
    requires IsWeekday(hoyWeekday)
    ensures var d := parseDate(e.fecha);
      Clasificar(e, hoyStr, hoyDay, FinSemana(hoyDay, hoyWeekday), parseDate) == Ninguno
      <==> d.None? || (e.fecha != hoyStr && d.value <= hoyDay)
  {
  }

  /**
   * Every event lands in exactly one of the three lists or in none: the
   * lists and the dropped events together are the input, counted with
   * multiplicity, and no event appears in two lists.
   */
  lemma {:induction false} BucketsPartition(eventos: seq<EventoEntity>, hoyStr: string, hoyDay: int, finSemana: int,
                         parseDate: string -> Option<int>)
    ensures var hoy := Filter(eventos, InBucket(Hoy, hoyStr, hoyDay, finSemana, parseDate));
            var semana := Filter(eventos, InBucket(Semana, hoyStr, hoyDay, finSemana, parseDate));
            var futuros := Filter(eventos, InBucket(Futuros, hoyStr, hoyDay, finSemana, parseDate));
            var ninguno := Filter(eventos, InBucket(Ninguno, hoyStr, hoyDay, finSemana, parseDate));
      && multiset(hoy) + multiset(semana) + multiset(futuros) + multiset(ninguno) == multiset(eventos)
      && (forall x :: x in hoy ==> x !in semana && x !in futuros)
      && (forall x :: x in semana ==> x !in futuros)
  {
    var p := InBucket(Hoy, hoyStr, hoyDay, finSemana, parseDate);
    var q := InBucket(Semana, hoyStr, hoyDay, finSemana, parseDate);
    var r := InBucket(Futuros, hoyStr, hoyDay, finSemana, parseDate);
    var n := InBucket(Ninguno, hoyStr, hoyDay, finSemana, parseDate);
    forall x
      ensures (multiset(Filter(eventos, p)) + multiset(Filter(eventos, q))
               + multiset(Filter(eventos, r)) + multiset(Filter(eventos, n)))[x] == multiset(eventos)[x]
    {
      FilterMultiset(eventos, p, x);
      FilterMultiset(eventos, q, x);
      FilterMultiset(eventos, r, x);
      FilterMultiset(eventos, n, x);
    }
  }

  /** Each list keeps the input's order: it embeds into the input at increasing positions. */
  lemma {:induction false} BucketsKeepOrder(eventos: seq<EventoEntity>, b: Bucket, hoyStr: string, hoyDay: int, finSemana: int,
                         parseDate: string -> Option<int>)
    returns (idx: seq<nat>)
    ensures Embedding(Filter(eventos, InBucket(b, hoyStr, hoyDay, finSemana, parseDate)), eventos, idx)
  {
    idx := FilterSubsequence(eventos, InBucket(b, hoyStr, hoyDay, finSemana, parseDate));
  }

  /** On a Sunday the week ends today, so nothing is "this week". */
  lemma SundayHasEmptyWeek(eventos: seq<EventoEntity>, hoyStr: string, hoyDay: int,
                           parseDate: string -> Option<int>)
    ensures Filter(eventos, InBucket(Semana, hoyStr, hoyDay, FinSemana(hoyDay, Sunday), parseDate)) == []
  {
  }

  /** An event whose text is today's goes to today's list whenever it parses. */
  lemma TodayByText(e: EventoEntity, hoyStr: string, hoyDay: int, finSemana: int,
                    parseDate: string -> Option<int>)
    ensures Clasificar(e, hoyStr, hoyDay, finSemana, parseDate) == Hoy
            <==> e.fecha == hoyStr && parseDate(e.fecha).Some?
  {
  }
}
