/**
 * The schedule popup of one course section, as both scrapers read it:
 * the room classifier (procesarSala), the professor list and the 10 x 7
 * matrix filled through the fixed physical-row map (extraerHorario).
 *
 * The popup itself is given as plain data: the text of the professor cell
 * (absent when its header cannot be found) and, for every row of the
 * schedule table, the texts of its "letra7" sub-tables (absent when the
 * table cannot be found).
 */
module Schedule {
  import opened Wrappers
  import opened Text

  /** Number of teaching blocks per day and of days per week. */
  const Bloques: nat := 10
  const Dias: nat := 7

  /** A schedule: Bloques rows of Dias room names ("" = free). */
  type Horario = seq<seq<string>>

  predicate EsMatriz(m: Horario) {
    |m| == Bloques && forall b :: 0 <= b < Bloques ==> |m[b]| == Dias
  }

  /** The physical row (1-based, after the header) that carries each block. */
  const MapaFilas: map<int, nat> :=
    map[1 := 0, 20 := 1, 39 := 2, 58 := 3, 77 := 4, 96 := 5, 115 := 6, 134 := 7, 153 := 8, 172 := 9]

  /** The row at 0-based position k feeds a block only when k = 19 * block. */
  lemma MapaFilasPosicion(k: nat)
    ensures k + 1 in MapaFilas ==> MapaFilas[k + 1] < Bloques && 19 * MapaFilas[k + 1] == k
  {
  }

  /** Block b is read from the row at 0-based position 19 * b. */
  lemma MapaFilasBloque(b: nat)
    requires b < Bloques
    ensures 19 * b + 1 in MapaFilas && MapaFilas[19 * b + 1] == b
  {
  }

  /** Which of the two scrapers: they differ only on a "Prof." cell with no second line. */
  datatype Variante = Sedona | Piedmont

  /**
   * procesarSala: the room named by one cell of the schedule.  A cell whose
   * first line starts with "Prof." names the room on its second line; the
   * older scraper fails when there is none (None), the batch scraper yields "".
   * Otherwise the first line with every "Sala " removed, trimmed.
   */
  function ProcesarSala(v: Variante, texto: string): (r: Option<string>)
    ensures r.Some? ==> NoEdgeSpace(r.value)
    ensures v == Piedmont ==> r.Some?
  {
    var partes := Split(texto, '\n');
    if StartsWith(Strip(partes[0]), "Prof.") then
      if |partes| > 1 then Some(Strip(partes[1]))
      else if v == Sedona then None
      else Some("")
    else
      Some(Strip(RemoveAll(partes[0], "Sala ")))
  }

  /** The cases of procesarSala, in terms of the lines of the cell. */
  lemma ProcesarSalaCasos(v: Variante, texto: string)
    ensures ProcesarSala(v, texto).None? <==>
              v == Sedona && StartsWith(Strip(Split(texto, '\n')[0]), "Prof.") && '\n' !in texto
    ensures StartsWith(Strip(Split(texto, '\n')[0]), "Prof.") && '\n' in texto ==>
              ProcesarSala(v, texto) == Some(Strip(Split(texto, '\n')[1]))
    ensures StartsWith(Strip(Split(texto, '\n')[0]), "Prof.") && '\n' !in texto && v == Piedmont ==>
              ProcesarSala(v, texto) == Some("")
    ensures !StartsWith(Strip(Split(texto, '\n')[0]), "Prof.") ==>
              ProcesarSala(v, texto) == Some(Strip(RemoveAll(Split(texto, '\n')[0], "Sala ")))
  {
  }

  /** A one-line cell without "Prof." or "Sala " is just trimmed. */
  lemma ProcesarSalaLineaSimple(v: Variante, texto: string)
    requires '\n' !in texto
    requires !StartsWith(Strip(texto), "Prof.")
    requires forall i :: !OccursAt(texto, "Sala ", i)
    ensures ProcesarSala(v, texto) == Some(Strip(texto))
  {
    assert Split(texto, '\n') == [texto] by { SplitJoin(texto, '\n'); }
    RemoveAllAbsent(texto, "Sala ");
  }

  /** The removal is a single left-to-right pass, so it can leave a "Sala " behind. */
  lemma ProcesarSalaDejaResiduo()
    ensures ProcesarSala(Sedona, "SalSala a 1") == Some("Sala 1")
  {
    var t := "SalSala a 1";
    assert '\n' !in t;
    StripSinBordes(t);
    assert !StartsWith(t, "Prof.") by { assert t[0] != 'P'; }
    ProcesarSalaUnaLinea(Sedona, t);
    RemocionResiduo(t, "Sala ");
    StripSinBordes("Sala 1");
  }

  /** A one-line cell that does not start with "Prof." loses its "Sala " occurrences and is trimmed. */
  lemma ProcesarSalaUnaLinea(v: Variante, t: string)
    requires '\n' !in t
    requires !StartsWith(Strip(t), "Prof.")
    ensures ProcesarSala(v, t) == Some(Strip(RemoveAll(t, "Sala ")))
  {
    UnaLinea(t);
  }

  lemma StripSinBordes(u: string)
    requires u != [] && !IsPySpace(u[0]) && !IsPySpace(u[|u| - 1])
    ensures Strip(u) == u
  {
  }

  lemma UnaLinea(t: string)
    requires '\n' !in t
    ensures Split(t, '\n') == [t]
  {
    SplitJoin(t, '\n');
  }

  /** The single pass over "SalSala a 1": three characters kept, one "Sala " removed, "a 1" kept. */
  lemma RemocionResiduo(t: string, p: string)
    requires t == "SalSala a 1" && p == "Sala "
    ensures RemoveAll(t, p) == "Sala 1"
  {
    PiezasResiduo(t, p);
    var u1, u2, u3, u8 := t[1..], t[2..], t[3..], t[8..];
    assert RemoveAll(u8, p) == u8;
    assert RemoveAll(u3, p) == u8;
    RemoveAllPaso(u2, p);
    RemoveAllPaso(u1, p);
    RemoveAllPaso(t, p);
  }

  /** The pieces RemocionResiduo walks through. */
  lemma PiezasResiduo(t: string, p: string)
    requires t == "SalSala a 1" && p == "Sala "
    ensures |t[8..]| < |p| && t[3..][..5] == p && t[3..][5..] == t[8..]
    ensures t[2..][..5] != p && t[2..][1..] == t[3..]
    ensures t[1..][..5] != p && t[1..][1..] == t[2..]
    ensures t[..5] != p && [t[0]] + ([t[1..][0]] + ([t[2..][0]] + t[8..])) == "Sala 1"
  {
    assert t[2..][0] != p[0] && t[1..][0] != p[0] && t[3] != p[3];
    assert t[8..] == "a 1";
  }

  /** The names in the professor cell: its lines, trimmed, blank ones dropped. */
  function ListaProfesores(lineas: seq<string>): (r: seq<string>)
    ensures |r| <= |lineas|
    ensures forall i :: 0 <= i < |r| ==> r[i] != "" && NoEdgeSpace(r[i])
  {
    if lineas == [] then []
    else (if Strip(lineas[0]) != "" then [Strip(lineas[0])] else []) + ListaProfesores(lineas[1..])
  }

  /** A name is listed exactly when some line trims to it. */
  lemma {:induction false} ListaProfesoresContiene(lineas: seq<string>, n: string)
    ensures n in ListaProfesores(lineas) <==> n != "" && exists i :: 0 <= i < |lineas| && Strip(lineas[i]) == n
  {
    if lineas != [] {
      ListaProfesoresContiene(lineas[1..], n);
      if n != "" && (exists i :: 0 <= i < |lineas| && Strip(lineas[i]) == n) {
        var i :| 0 <= i < |lineas| && Strip(lineas[i]) == n;
        if i > 0 {
          assert Strip(lineas[1..][i - 1]) == n;
        }
      }
    }
  }

  /** The room for day d of a schedule row (sub-tables 2..8 are Monday..Sunday). */
  function Valor(v: Variante, fila: seq<string>, d: nat): Option<string>
    requires |fila| >= 9 && d < Dias
  {
    ProcesarSala(v, Strip(fila[d + 2]))
  }

  /** A row with at least 9 sub-tables that has a cell the classifier rejects. */
  predicate FilaFalla(v: Variante, fila: seq<string>) {
    |fila| >= 9 && exists d :: 0 <= d < Dias && Valor(v, fila, d).None?
  }

  predicate TablaFalla(v: Variante, filas: seq<seq<string>>) {
    exists k :: 0 <= k < |filas| && FilaFalla(v, filas[k])
  }

  /** Value a row contributes for day d: "" for a spacer row. */
  function ValorFila(v: Variante, fila: seq<string>, d: nat): string
    requires d < Dias
  {
    if |fila| >= 9 && Valor(v, fila, d).Some? then Valor(v, fila, d).value else ""
  }

  /** Cell (b, d) after the first k rows have been read. */
  function CeldaHasta(v: Variante, filas: seq<seq<string>>, k: nat, b: nat, d: nat): string
    requires k <= |filas| && d < Dias
  {
    if 19 * b < k then ValorFila(v, filas[19 * b], d) else ""
  }

  /**
   * The matrix extraerHorario builds from the table rows after the header:
   * None when some full row has a cell the classifier rejects, otherwise
   * cell (b, d) is the classified sub-table d + 2 of the row at 1-based
   * position 19 * b + 1 when that row exists and has 9 sub-tables, else "".
   */
  function MatrizSpec(v: Variante, filas: seq<seq<string>>): (m: Option<Horario>)
    ensures m.None? <==> TablaFalla(v, filas)
    ensures v == Piedmont ==> m.Some?
    ensures m.Some? ==> EsMatriz(m.value)
    ensures m.Some? ==> forall b, d :: 0 <= b < Bloques && 0 <= d < Dias ==> NoEdgeSpace(m.value[b][d])
  {
    if TablaFalla(v, filas) then None
    else Some(seq(Bloques, b requires 0 <= b => seq(Dias, d requires 0 <= d < Dias => CeldaHasta(v, filas, |filas|, b, d))))
  }

  /**
   * A cell is non-empty only if the row mapped to its block (1-based
   * position 19 * b + 1) exists, has at least 9 sub-tables, and classifies
   * to that very value.
   */
  lemma {:induction false} CeldaSoloDesdeFilaMapeada(v: Variante, filas: seq<seq<string>>, b: nat, d: nat)
    requires b < Bloques && d < Dias
    requires MatrizSpec(v, filas).Some?
    requires MatrizSpec(v, filas).value[b][d] != ""
    ensures 19 * b < |filas| && 19 * b + 1 in MapaFilas && MapaFilas[19 * b + 1] == b
    ensures |filas[19 * b]| >= 9 && Valor(v, filas[19 * b], d) == Some(MatrizSpec(v, filas).value[b][d])
  {
    MapaFilasBloque(b);
  }

  /** Rows after the last mapped position (1-based 172) never change the matrix. */
  lemma {:induction false} FilasSobrantesIgnoradas(v: Variante, filas: seq<seq<string>>, extra: seq<seq<string>>)
    requires |filas| >= 172
    requires !TablaFalla(v, filas + extra)
    ensures MatrizSpec(v, filas + extra) == MatrizSpec(v, filas)
  {
    assert !TablaFalla(v, filas) by {
      forall k | 0 <= k < |filas| ensures !FilaFalla(v, filas[k]) {
        assert (filas + extra)[k] == filas[k];
        assert !FilaFalla(v, (filas + extra)[k]);
      }
    }
    var m1 := MatrizSpec(v, filas + extra).value;
    var m2 := MatrizSpec(v, filas).value;
    forall b | 0 <= b < Bloques
      ensures m1[b] == m2[b]
    {
      forall d | 0 <= d < Dias
        ensures m1[b][d] == m2[b][d]
      {
        assert 19 * b < |filas|;
        assert (filas + extra)[19 * b] == filas[19 * b];
        assert m1[b][d] == CeldaHasta(v, filas + extra, |filas + extra|, b, d);
        assert m2[b][d] == CeldaHasta(v, filas, |filas|, b, d);
      }
    }
    assert |m1| == |m2|;
    assert m1 == m2;
  }

  /** The seven classified cells of a full schedule row, or None when one is rejected. */
  method ClasificarFila(v: Variante, fila: seq<string>) returns (datos: Option<seq<string>>)
    requires |fila| >= 9
    ensures datos.None? <==> FilaFalla(v, fila)
    ensures datos.Some? ==> |datos.value| == Dias && forall j :: 0 <= j < Dias ==> datos.value[j] == ValorFila(v, fila, j)
  {
    var valores: seq<string> := [];
    for d := 0 to Dias
      invariant |valores| == d && Clasificados(v, fila, valores)
    {
      var x := ProcesarSala(v, Strip(fila[d + 2]));
      if x.None? {
        assert Valor(v, fila, d).None?;
        return None;
      }
      ClasificadosMas(v, fila, valores, x.value);
      valores := valores + [x.value];
    }
    datos := Some(valores);
  }

  /** The values gathered so far are the classified cells of the first days, in order. */
  predicate Clasificados(v: Variante, fila: seq<string>, valores: seq<string>) {
    |fila| >= 9 && |valores| <= Dias && forall j :: 0 <= j < |valores| ==> Valor(v, fila, j) == Some(valores[j])
  }

  lemma ClasificadosMas(v: Variante, fila: seq<string>, valores: seq<string>, x: string)
    requires Clasificados(v, fila, valores) && |valores| < Dias && Valor(v, fila, |valores|) == Some(x)
    ensures Clasificados(v, fila, valores + [x])
  {
  }

  /** Writes the non-empty values of one row of the matrix; empty values leave the cell as it was. */
  method EscribirFila(matriz: Horario, idx: nat, datos: seq<string>) returns (r: Horario)
    requires EsMatriz(matriz) && idx < Bloques && |datos| == Dias
    ensures EsMatriz(r)
    ensures forall b, d {:trigger r[b][d]} :: 0 <= b < Bloques && 0 <= d < Dias ==>
              r[b][d] == (if b == idx && datos[d] != "" then datos[d] else matriz[b][d])
  {
    r := matriz;
    for i := 0 to Dias
      invariant EsMatriz(r)
      invariant forall b, d {:trigger r[b][d]} :: 0 <= b < Bloques && 0 <= d < Dias ==>
                  r[b][d] == (if b == idx && d < i && datos[d] != "" then datos[d] else matriz[b][d])
    {
      if datos[i] != "" {
        r := r[idx := r[idx][i := datos[i]]];
      }
    }
  }

  /** Reading row k changes only the cells of the block mapped to it. */
  lemma CeldaSiguiente(v: Variante, filas: seq<seq<string>>, k: nat, b: nat, d: nat)
    requires k < |filas| && d < Dias
    ensures CeldaHasta(v, filas, k + 1, b, d) ==
              if 19 * b == k then ValorFila(v, filas[k], d) else CeldaHasta(v, filas, k, b, d)
  {
  }

  /** The matrix after the first k rows: every cell as CeldaHasta gives it. */
  predicate Parcial(v: Variante, filas: seq<seq<string>>, k: nat, matriz: Horario) {
    k <= |filas| && EsMatriz(matriz)
    && forall b, d {:trigger matriz[b][d]} :: 0 <= b < Bloques && 0 <= d < Dias ==>
         matriz[b][d] == CeldaHasta(v, filas, k, b, d)
  }

  /** A row that is short or whose position MapaFilas does not map leaves the matrix as it is. */
  lemma FilaIgnorada(v: Variante, filas: seq<seq<string>>, k: nat, matriz: Horario)
    requires k < |filas| && Parcial(v, filas, k, matriz)
    requires |filas[k]| < 9 || k + 1 !in MapaFilas
    ensures Parcial(v, filas, k + 1, matriz)
  {
    forall b, d | 0 <= b < Bloques && 0 <= d < Dias
      ensures matriz[b][d] == CeldaHasta(v, filas, k + 1, b, d)
    {
      CeldaSiguiente(v, filas, k, b, d);
      MapaFilasBloque(b);
    }
  }

  /** A mapped row's classified values land in its block, empty values leaving the cell as it was. */
  lemma FilaEscrita(v: Variante, filas: seq<seq<string>>, k: nat, matriz: Horario, datos: seq<string>, nueva: Horario)
    requires k < |filas| && Parcial(v, filas, k, matriz) && |filas[k]| >= 9 && k + 1 in MapaFilas
    requires |datos| == Dias && forall j :: 0 <= j < Dias ==> datos[j] == ValorFila(v, filas[k], j)
    requires EsMatriz(nueva)
    requires forall b, d {:trigger nueva[b][d]} :: 0 <= b < Bloques && 0 <= d < Dias ==>
               nueva[b][d] == (if b == MapaFilas[k + 1] && datos[d] != "" then datos[d] else matriz[b][d])
    ensures Parcial(v, filas, k + 1, nueva)
  {
    MapaFilasPosicion(k);
    forall b, d | 0 <= b < Bloques && 0 <= d < Dias
      ensures nueva[b][d] == CeldaHasta(v, filas, k + 1, b, d)
    {
      CeldaSiguiente(v, filas, k, b, d);
      MapaFilasBloque(b);
    }
  }

  /** One pass of extraerHorario's loop: row k is classified and, when its 1-based position is mapped, written to its block. */
  method LeerFila(v: Variante, filas: seq<seq<string>>, k: nat, filaActual: nat, matriz: Horario) returns (r: Option<Horario>)
    requires k < |filas| && filaActual == k + 1 && Parcial(v, filas, k, matriz)
    ensures r.None? <==> FilaFalla(v, filas[k])
    ensures r.Some? ==> Parcial(v, filas, k + 1, r.value)
  {
    var fila := filas[k];
    if |fila| < 9 {
      FilaIgnorada(v, filas, k, matriz);
      return Some(matriz);
    }
    var datos := ClasificarFila(v, fila);
    if datos.None? {
      return None;
    }
    if filaActual !in MapaFilas {
      FilaIgnorada(v, filas, k, matriz);
      return Some(matriz);
    }
    var nueva := EscribirFila(matriz, MapaFilas[filaActual], datos.value);
    FilaEscrita(v, filas, k, matriz, datos.value, nueva);
    return Some(nueva);
  }

  /** Once every row has been read without a rejected cell, the matrix is the specified one. */
  lemma MatrizLlena(v: Variante, filas: seq<seq<string>>, matriz: Horario)
    requires Parcial(v, filas, |filas|, matriz) && !TablaFalla(v, filas)
    ensures MatrizSpec(v, filas) == Some(matriz)
  {
    var spec := MatrizSpec(v, filas).value;
    forall b | 0 <= b < Bloques
      ensures matriz[b] == spec[b]
    {
      forall d | 0 <= d < Dias
        ensures matriz[b][d] == spec[b][d]
      {
      }
    }
    assert |matriz| == |spec|;
    assert matriz == spec;
  }

  /** extraerHorario's loop: the rows are read in order, the matrix filled through MapaFilas. */
  method LlenarMatriz(v: Variante, filas: seq<seq<string>>) returns (m: Option<Horario>)
    ensures m == MatrizSpec(v, filas)
  {
    var matriz: Horario := seq(Bloques, _ => seq(Dias, _ => ""));
    var filaActual := 1;
    for k := 0 to |filas|
      invariant filaActual == k + 1
      invariant Parcial(v, filas, k, matriz)
      invariant forall j :: 0 <= j < k ==> !FilaFalla(v, filas[j])
    {
      var r := LeerFila(v, filas, k, filaActual, matriz);
      if r.None? {
        assert FilaFalla(v, filas[k]);
        return None;
      }
      matriz := r.value;
      filaActual := filaActual + 1;
    }
    MatrizLlena(v, filas, matriz);
    m := Some(matriz);
  }

  /** Rows of the schedule table after its header row. */
  function SinEncabezado(tabla: seq<seq<string>>): (r: seq<seq<string>>)
    ensures |r| == if tabla == [] then 0 else |tabla| - 1
    ensures forall k :: 0 <= k < |r| ==> r[k] == tabla[k + 1]
  {
    if tabla == [] then [] else tabla[1..]
  }

  /** What one schedule popup shows: the professor cell and the schedule table. */
  datatype Popup = Popup(profesores: Option<string>, tabla: Option<seq<seq<string>>>)

  datatype Extraccion = Extraccion(horario: Horario, profesores: seq<string>)

  /**
   * extraerHorario.  The older scraper gives up when the professor cell or
   * the table is missing or a cell cannot be classified; the batch scraper
   * only when the table is missing, using no professors when their cell is.
   */
  function Extraido(v: Variante, p: Popup): (r: Option<Extraccion>)
    ensures r.Some? ==> EsMatriz(r.value.horario) && p.tabla.Some?
    ensures r.Some? ==> forall i :: 0 <= i < |r.value.profesores| ==> r.value.profesores[i] != ""
    ensures v == Piedmont ==> (r.Some? <==> p.tabla.Some?)
    ensures v == Piedmont && r.Some? && p.profesores.None? ==> r.value.profesores == []
    ensures v == Sedona ==>
              (r.Some? <==> p.profesores.Some? && p.tabla.Some? && !TablaFalla(v, SinEncabezado(p.tabla.value)))
    ensures r.Some? ==> Some(r.value.horario) == MatrizSpec(v, SinEncabezado(p.tabla.value))
  {
    if p.tabla.None? || (v == Sedona && p.profesores.None?) then None
    else
      var profesores := if p.profesores.Some? then ListaProfesores(Split(p.profesores.value, '\n')) else [];
      match MatrizSpec(v, SinEncabezado(p.tabla.value))
      case None => None
      case Some(m) => Some(Extraccion(m, profesores))
  }

  /** extraerHorario, reading the popup step by step. */
  method ExtraerHorario(v: Variante, p: Popup) returns (r: Option<Extraccion>)
    ensures r == Extraido(v, p)
  {
    var profesores: seq<string> := [];
    if p.profesores.Some? {
      profesores := ListaProfesores(Split(p.profesores.value, '\n'));
    } else if v == Sedona {
      return None;
    }
    if p.tabla.None? {
      return None;
    }
    var m := LlenarMatriz(v, SinEncabezado(p.tabla.value));
    if m.None? {
      return None;
    }
    r := Some(Extraccion(m.value, profesores));
  }

  /** One section of a subject as both scrapers store it. */
  datatype Seccion = Seccion(
    nombre: Option<string>,
    departamento: Option<string>,
    paralelo: string,
    profesores: seq<string>,
    cupos: string,
    horario: Horario)

  /** A row of the course table: a divider (first cell spans 7 columns) or its cells' texts. */
  datatype Fila = Separador | Celdas(celdas: seq<string>)

  /** The popup of row n, read by extraerHorario; None when navigation or extraction fails. */
  function Detalle(v: Variante, popups: nat -> Option<Popup>, n: nat): Option<Extraccion> {
    match popups(n)
    case None => None
    case Some(p) => Extraido(v, p)
  }

  /** agregarHorario: the popup of row n, read through extraerHorario. */
  method AgregarHorario(v: Variante, n: nat, popups: nat -> Option<Popup>) returns (x: Option<Extraccion>)
    ensures x == Detalle(v, popups, n)
  {
    var p := popups(n);
    if p.None? {
      return None;
    }
    x := ExtraerHorario(v, p.value);
  }
}
