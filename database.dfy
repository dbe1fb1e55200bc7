/** The Room table row and the order in which the DAO lists the table. */
module Database {
  import opened KotlinText

  /** A row of table `eventos`; `id` is assigned by the store when inserted as 0. */
  datatype EventoEntity = EventoEntity(
    id: int := 0,
    fecha: string,
    hora: string,
    categoria: string,
    descripcion: string,
    status: string,
    ubicacion: string,
    contacto: string,
    recordatorio: string := "")

  /**
   * `ORDER BY fecha DESC, hora DESC`: row `a` may be listed before row `b`.
   * SQLite's binary collation compares by code point, as `LexLe` does.
   */
  predicate ListedBefore(a: EventoEntity, b: EventoEntity) {
    LexLe(b.fecha, a.fecha) && (a.fecha == b.fecha ==> LexLe(b.hora, a.hora))
  }

  /**
   * The listing order compares every two rows and chains: any two rows can
   * be listed one way or the other, and `a` before `b` before `c` allows
   * `a` before `c`.
   */
  lemma {:induction false} ListedBeforeOrders(a: EventoEntity, b: EventoEntity, c: EventoEntity)
    ensures ListedBefore(a, b) || ListedBefore(b, a)
    ensures ListedBefore(a, b) && ListedBefore(b, c) ==> ListedBefore(a, c)
  {
    LexLeTotal(a.fecha, b.fecha);
    LexLeTotal(a.hora, b.hora);
    if LexLe(a.fecha, b.fecha) && LexLe(b.fecha, a.fecha) {
      LexLeAntisymmetric(a.fecha, b.fecha);
    }
    if ListedBefore(a, b) && ListedBefore(b, c) {
      LexLeTransitive(c.fecha, b.fecha, a.fecha);
      if a.fecha == c.fecha {
        LexLeAntisymmetric(a.fecha, b.fecha);
        LexLeTransitive(c.hora, b.hora, a.hora);
      }
    }
  }

  /** The rows as `getAllEventosList()` returns them. */
  ghost predicate InDaoOrder(rows: seq<EventoEntity>) {
    forall i, j :: 0 <= i < j < |rows| ==> ListedBefore(rows[i], rows[j])
  }
}
