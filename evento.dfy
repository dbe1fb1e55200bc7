/**
 * The agenda record and its one-line backup format: seven fields joined
 * by "~~", ended by a newline.
 */
module Eventos {
  import opened Wrappers
  import opened KotlinText

  datatype Evento = Evento(
    fecha: string,
    hora: string,
    categoria: string,
    descripcion: string,
    status: string,
    ubicacion: string,
    contacto: string)

  /** The fields in the order the line format writes them. */
  function Fields(e: Evento): (f: seq<string>)
    ensures |f| == 7
  {
    [e.fecha, e.hora, e.categoria, e.descripcion, e.status, e.ubicacion, e.contacto]
  }

  /** `toTxtLine()`: the fields in order, separated by "~~", then "\n". */
  function ToTxtLine(e: Evento): (line: string)
    ensures line == Join(Fields(e)) + "\n"
  {
    TxtLineLayout(e);
    e.fecha + Sep + e.hora + Sep + e.categoria + Sep + e.descripcion + Sep
      + e.status + Sep + e.ubicacion + Sep + e.contacto + "\n"
  }

  lemma {:induction false} TxtLineLayout(e: Evento)
    ensures Join(Fields(e)) == e.fecha + Sep + e.hora + Sep + e.categoria + Sep + e.descripcion + Sep
      + e.status + Sep + e.ubicacion + Sep + e.contacto
  {
    var f := Fields(e);
    assert Join(f[6..]) == e.contacto;
    assert Join(f[5..]) == e.ubicacion + Sep + e.contacto by { assert f[5..][1..] == f[6..]; }
    assert Join(f[4..]) == e.status + Sep + (e.ubicacion + Sep + e.contacto) by { assert f[4..][1..] == f[5..]; }
    assert Join(f[3..]) == e.descripcion + Sep + (e.status + Sep + (e.ubicacion + Sep + e.contacto)) by { assert f[3..][1..] == f[4..]; }
    assert Join(f[2..]) == e.categoria + Sep + Join(f[3..]) by { assert f[2..][1..] == f[3..]; }
    assert Join(f[1..]) == e.hora + Sep + Join(f[2..]) by { assert f[1..][1..] == f[2..]; }
    assert Join(f) == e.fecha + Sep + Join(f[1..]);
  }

  /**
   * `fromTxtLine(line)`: trims the line, rejects a blank one, splits on
   * "~~" and accepts exactly seven parts, assigned positionally.
   */
  function FromTxtLine(line: string): (r: Option<Evento>)
    ensures IsBlank(line) ==> r == None
    ensures r.Some? <==> !IsBlank(line) && |Split(Trim(line))| == 7
    ensures r.Some? ==> Fields(r.value) == Split(Trim(line))
  {
    var cleanLine := Trim(line);
    if IsBlank(cleanLine) then None
    else
      var parts := Split(cleanLine);
      if |parts| == 7 then
        Some(Evento(
          fecha := parts[0],
          hora := parts[1],
          categoria := parts[2],
          descripcion := parts[3],
          status := parts[4],
          ubicacion := parts[5],
          contacto := parts[6]))
      else None
  }

  /**
   * The records whose line reads back as themselves: no field holds a '~'
   * (a trailing one would fuse with the separator), and the line does not
   * start or end with whitespace that `trim` would eat.
   */
  predicate LineSafe(e: Evento) {
    && (forall k :: 0 <= k < 7 ==> NoTilde(Fields(e)[k]))
    && (e.fecha == [] || !IsWhitespace(e.fecha[0]))
    && (e.contacto == [] || !IsWhitespace(e.contacto[|e.contacto| - 1]))
  }

  /** Surrounding whitespace of the whole line does not matter. */
  lemma {:induction false} FromTxtLineIgnoresOuterWhitespace(line: string)
    ensures FromTxtLine(Trim(line)) == FromTxtLine(line)
  {
    TrimIdempotent(line);
    if IsBlank(Trim(line)) {
      assert Trim(line) == [];
    }
  }

  lemma {:induction false} JoinFieldsEnds(e: Evento)
    ensures |Join(Fields(e))| >= 2
    ensures Join(Fields(e))[0] == (if e.fecha == [] then '~' else e.fecha[0])
    ensures var j := Join(Fields(e));
      j[|j| - 1] == (if e.contacto == [] then '~' else e.contacto[|e.contacto| - 1])
  {
    TxtLineLayout(e);
    var x := e.fecha + Sep + e.hora + Sep + e.categoria + Sep + e.descripcion + Sep
      + e.status + Sep + e.ubicacion + Sep;
    assert x[|x| - 1] == '~';
    assert Join(Fields(e)) == x + e.contacto;
    assert Join(Fields(e)) == e.fecha + (Sep + (e.hora + Sep + e.categoria + Sep + e.descripcion + Sep
      + e.status + Sep + e.ubicacion + Sep + e.contacto));
  }

  /**
   * A record reads back from its own line as soon as its joined fields split
   * back into themselves and `trim` has nothing to remove but the newline.
   */
  lemma {:induction false} ReadsBack(e: Evento)
    requires Split(Join(Fields(e))) == Fields(e)
    requires e.fecha == [] || !IsWhitespace(e.fecha[0])
    requires e.contacto == [] || !IsWhitespace(e.contacto[|e.contacto| - 1])
    ensures FromTxtLine(ToTxtLine(e)) == Some(e)
  {
    var j := Join(Fields(e));
    JoinFieldsEnds(e);
    TrimNewlineTerminated(j);
    assert !IsBlank(j + "\n") by {
      assert !IsWhitespace((j + "\n")[0]);
    }
  }

  /** A line-safe record survives writing and reading back. */
  lemma {:induction false} RoundTrip(e: Evento)
    requires LineSafe(e)
    ensures FromTxtLine(ToTxtLine(e)) == Some(e)
  {
    SplitJoin(Fields(e));
    ReadsBack(e);
  }

  /** A separator inside a field splits its own line into too many parts. */
  lemma {:induction false} SeparatorInFieldRejected(e: Evento, k: nat)
    requires k < 7 && ContainsSep(Fields(e)[k])
    ensures FromTxtLine(ToTxtLine(e)) == None
  {
    var j := Join(Fields(e));
    ContainsSepCount(Fields(e)[k]);
    SepCountJoin(Fields(e), k);
    SepCountAppendOther(j, '\n');
    SepCountTrim(j + "\n");
    SplitLength(Trim(j + "\n"));
  }

  /**
   * What `fromTxtLine` accepts is printed back by `toTxtLine` as the trimmed
   * line, and none of its fields contains the separator.
   */
  lemma {:induction false} ParsedLineReprints(line: string)
    requires FromTxtLine(line).Some?
    ensures ToTxtLine(FromTxtLine(line).value) == Trim(line) + "\n"
    ensures forall k :: 0 <= k < 7 ==> !ContainsSep(Fields(FromTxtLine(line).value)[k])
  {
    JoinSplit(Trim(line));
    SplitPartsLackSep(Trim(line));
  }

  /**
   * A field that merely ends in '~' is not rejected: its line parses into a
   * different record, the tilde moving to the start of the next field.
   */
  lemma {:induction false} TrailingTildeShiftsField(e: Evento)
    requires NoTilde(e.fecha) && NoTilde(e.hora) && NoTilde(e.categoria)
    requires NoTilde(e.status) && NoTilde(e.ubicacion) && NoTilde(e.contacto)
    requires e.fecha == [] || !IsWhitespace(e.fecha[0])
    requires e.contacto == [] || !IsWhitespace(e.contacto[|e.contacto| - 1])
    requires e.descripcion != [] && e.descripcion[|e.descripcion| - 1] == '~'
    requires NoTilde(e.descripcion[..|e.descripcion| - 1]) && e.status != []
    ensures FromTxtLine(ToTxtLine(e))
      == Some(e.(descripcion := e.descripcion[..|e.descripcion| - 1], status := "~" + e.status))
  {
    var d := e.descripcion[..|e.descripcion| - 1];
    var e' := e.(descripcion := d, status := "~" + e.status);
    SameLine(e, d);
    assert e'.status[1..] == e.status;
    ShiftedSplit(e');
    ReadsBack(e');
  }

  lemma {:induction false} ShiftedSplit(e: Evento)
    requires NoTilde(e.fecha) && NoTilde(e.hora) && NoTilde(e.categoria) && NoTilde(e.descripcion)
    requires |e.status| >= 2 && e.status[0] == '~' && NoTilde(e.status[1..])
    requires NoTilde(e.ubicacion) && NoTilde(e.contacto)
    ensures Split(Join(Fields(e))) == Fields(e)
  {
    var head := [e.fecha, e.hora, e.categoria, e.descripcion];
    var tail := [e.status, e.ubicacion, e.contacto];
    assert Fields(e) == head + tail;
    JoinAppend(head, tail);
    SplitJoin([e.ubicacion, e.contacto]);
    assert e.status == "~" + e.status[1..];
    SplitTildeStatus(e.status[1..], Join([e.ubicacion, e.contacto]));
    assert Join(tail) == e.status + Sep + Join([e.ubicacion, e.contacto]);
    SplitJoinPrefix(head, Join(tail));
  }

  lemma {:induction false} SameLine(e: Evento, d: string)
    requires e.descripcion == d + "~"
    ensures ToTxtLine(e) == ToTxtLine(e.(descripcion := d, status := "~" + e.status))
  {
    TxtLineLayout(e);
    TxtLineLayout(e.(descripcion := d, status := "~" + e.status));
  }

  /** "~" + a non-empty tilde-free status, then a separator: the lone tilde stays in the part. */
  lemma {:induction false} SplitTildeStatus(status: string, tail: string)
    requires NoTilde(status) && status != []
    ensures Split("~" + status + Sep + tail) == ["~" + status] + Split(tail)
  {
    var s := "~" + status + Sep + tail;
    SplitSepCons(tail);
    SplitTildeFreePrefix(status, Sep + tail);
    assert status + (Sep + tail) == status + Sep + tail;
    assert s[1..] == status + Sep + tail;
    assert s[1] != '~';
    var rest := Split(s[1..]);
    assert rest == [status + []] + Split(tail);
    assert Split(s) == [[s[0]] + rest[0]] + rest[1..];
    assert [s[0]] + rest[0] == "~" + status;
  }

  /** A tilde-free part followed by a separator is split off whole. */
  lemma {:induction false} SplitHeadPart(p: string, y: string)
    requires NoTilde(p)
    ensures Split(p + (Sep + y)) == [p] + Split(y)
  {
    SplitTildeFreePrefix(p, Sep + y);
    SplitSepCons(y);
    assert p + [] == p;
  }

  /** Splitting tilde-free leading parts, a separator, then anything. */
  lemma {:induction false} SplitJoinPrefix(parts: seq<string>, x: string)
    requires |parts| >= 1
    requires forall k :: 0 <= k < |parts| ==> NoTilde(parts[k])
    ensures Split(Join(parts) + Sep + x) == parts + Split(x)
    decreases |parts|
  {
    var p := parts[0];
    if |parts| == 1 {
      assert Join(parts) + Sep + x == p + (Sep + x);
      assert Split(p + (Sep + x)) == [p] + Split(x) by {
        SplitHeadPart(p, x);
      }
    } else {
      var rest := Join(parts[1..]) + Sep + x;
      assert Join(parts) + Sep + x == p + (Sep + rest);
      assert Split(rest) == parts[1..] + Split(x) by {
        SplitJoinPrefix(parts[1..], x);
      }
      assert Split(p + (Sep + rest)) == [p] + Split(rest) by {
        SplitHeadPart(p, rest);
      }
      assert parts == [p] + parts[1..];
    }
  }
}
