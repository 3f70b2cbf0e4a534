/**
 * The empty-room page: the request parameters (campus, semester, a day in
 * 1..7 and the requested blocks 0..9), the occupancy map built from the
 * day's schedule rows, and the room x block table of Ocupado/Libre cells.
 * The two SQL queries are left to the database: the list of rooms and the
 * day's (room, block) rows are inputs.
 */
module BuscarSalasVacias {
  import opened Wrappers
  import opened SedonaWeb

  // ---------------------------------------------------------------------------
  // cargar_parametros

  datatype Parametros = Parametros(campus: string, semestre: string, dia: int, bloques: seq<nat>)

  const ErrorParametros: string := "Parámetros incompletos o inválidos"

  /**
   * FILTER_VALIDATE_INT with a min_range and a max_range: None stands for
   * a value that is absent or not an integer, and for PHP's false.
   */
  function EnteroEnRango(v: Option<int>, lo: int, hi: int): Option<int>
  {
    if v.Some? && lo <= v.value <= hi then v else None
  }

  /** A validated block as later arithmetic sees it: PHP's false counts as 0. */
  function ComoBloque(v: Option<int>): nat
  {
    var b := EnteroEnRango(v, 0, 9);
    if b.Some? then b.value else 0
  }

  /**
   * cargar_parametros as written. `bloques` is None when the parameter is
   * missing or not an array; each element is None when it is not an
   * integer. FILTER_REQUIRE_ARRAY turns an out-of-range element into false
   * but leaves the array itself non-empty, so only a missing or empty array
   * is rejected, and every later use reads the false element as block 0.
   */
  function CargarParametros(campus: Option<string>, semestre: Option<string>, dia: Option<int>,
                            bloques: Option<seq<Option<int>>>): (r: Result<Parametros, string>)
    ensures r.Ok? <==> Truthy(campus) && Truthy(semestre) && dia.Some? && 1 <= dia.value <= 7
                       && bloques.Some? && bloques.value != []
    ensures r.Err? ==> r.error == ErrorParametros
    ensures r.Ok? ==> r.value.campus == campus.value && r.value.semestre == semestre.value
                      && r.value.dia == dia.value && |r.value.bloques| == |bloques.value|
    ensures r.Ok? ==> forall i :: 0 <= i < |r.value.bloques| ==>
                        r.value.bloques[i] <= 9
                        && (EnteroEnRango(bloques.value[i], 0, 9).Some? ==> r.value.bloques[i] == bloques.value[i].value)
                        && (EnteroEnRango(bloques.value[i], 0, 9).None? ==> r.value.bloques[i] == 0)
  {
    var d := EnteroEnRango(dia, 1, 7);
    if !Truthy(campus) || !Truthy(semestre) || d.None? || bloques.None? || bloques.value == [] then
      Err(ErrorParametros)
    else
      var bs := bloques.value;
      Ok(Parametros(campus.value, semestre.value, d.value, seq(|bs|, i requires 0 <= i < |bs| => ComoBloque(bs[i]))))
  }

  /** Every element of the block array is an integer in 0..9. */
  predicate BloquesValidos(bs: seq<Option<int>>) {
    forall i :: 0 <= i < |bs| ==> EnteroEnRango(bs[i], 0, 9).Some?
  }

  /**
   * cargar_parametros as its documentation describes it: the request is
   * also rejected when some requested block is not an integer in 0..9.
   */
  function CargarParametrosCorregido(campus: Option<string>, semestre: Option<string>, dia: Option<int>,
                                     bloques: Option<seq<Option<int>>>): (r: Result<Parametros, string>)
    ensures r.Ok? <==> Truthy(campus) && Truthy(semestre) && dia.Some? && 1 <= dia.value <= 7
                       && bloques.Some? && bloques.value != [] && BloquesValidos(bloques.value)
    ensures r.Err? ==> r.error == ErrorParametros
    ensures r.Ok? ==> r.value.campus == campus.value && r.value.semestre == semestre.value
                      && r.value.dia == dia.value && |r.value.bloques| == |bloques.value|
    ensures r.Ok? ==> forall i :: 0 <= i < |r.value.bloques| ==>
                        r.value.bloques[i] <= 9 && r.value.bloques[i] == bloques.value[i].value
  {
    if bloques.Some? && !BloquesValidos(bloques.value) then Err(ErrorParametros)
    else CargarParametros(campus, semestre, dia, bloques)
  }

  /** Whenever the corrected loader accepts a request, the loader as written reads it the same way. */
  lemma CorregidoCoincide(campus: Option<string>, semestre: Option<string>, dia: Option<int>,
                          bloques: Option<seq<Option<int>>>)
    requires CargarParametrosCorregido(campus, semestre, dia, bloques).Ok?
    ensures CargarParametros(campus, semestre, dia, bloques) == CargarParametrosCorregido(campus, semestre, dia, bloques)
  {
  }

  /**
   * A request for block 12 alone is accepted as written and shown and
   * checked as block 0 ("1-2"); the corrected loader rejects it.
   */
  lemma BloqueFueraDeRango()
    ensures CargarParametros(Some("Casa Central"), Some("2025-1"), Some(3), Some([Some(12)]))
            == Ok(Parametros("Casa Central", "2025-1", 3, [0]))
    ensures Etiqueta(0) == "1-2"
    ensures CargarParametrosCorregido(Some("Casa Central"), Some("2025-1"), Some(3), Some([Some(12)])).Err?
  {
    var bs: seq<Option<int>> := [Some(12)];
    assert EnteroEnRango(bs[0], 0, 9).None?;
    assert !BloquesValidos(bs);
    assert seq(|bs|, i requires 0 <= i < |bs| => ComoBloque(bs[i])) == [0];
    EtiquetasExtremas();
  }

  // ---------------------------------------------------------------------------
  // obtener_mapa_ocupacion

  /** One row of the day's schedule query: a room and a starting block (1-based). */
  datatype Ocupacion = Ocupacion(sala: string, bloque: int)

  /**
   * The map that PDO::FETCH_GROUP followed by array_column builds from
   * the rows seen so far: each room sends to its blocks in row order.
   */
  function MapaDe(filas: seq<Ocupacion>): map<string, seq<int>>
    decreases |filas|
  {
    if filas == [] then map[]
    else
      var m := MapaDe(filas[..|filas| - 1]);
      var f := filas[|filas| - 1];
      m[f.sala := (if f.sala in m then m[f.sala] else []) + [f.bloque]]
  }

  /** The grouping and column extraction, one row at a time. */
  method ObtenerMapaOcupacion(filas: seq<Ocupacion>) returns (mapa: map<string, seq<int>>)
    ensures mapa == MapaDe(filas)
  {
    mapa := map[];
    for i := 0 to |filas|
      invariant mapa == MapaDe(filas[..i])
    {
      assert filas[..i + 1][..i] == filas[..i];
      var f := filas[i];
      var bloques := if f.sala in mapa then mapa[f.sala] else [];
      mapa := mapa[f.sala := bloques + [f.bloque]];
    }
    assert filas[..|filas|] == filas;
  }

  /** The blocks of the rows for room `sala`, in row order. */
  function BloquesDe(filas: seq<Ocupacion>, sala: string): seq<int>
    decreases |filas|
  {
    if filas == [] then []
    else
      var f := filas[|filas| - 1];
      BloquesDe(filas[..|filas| - 1], sala) + (if f.sala == sala then [f.bloque] else [])
  }

  /** A room has an entry exactly when it has rows, and the entry lists their blocks in row order. */
  lemma {:induction false} MapaCorrecto(filas: seq<Ocupacion>, sala: string)
    ensures sala in MapaDe(filas) <==> BloquesDe(filas, sala) != []
    ensures sala in MapaDe(filas) ==> MapaDe(filas)[sala] == BloquesDe(filas, sala)
    decreases |filas|
  {
    if filas != [] {
      MapaCorrecto(filas[..|filas| - 1], sala);
    }
  }

  /** A block is listed for a room exactly when some row pairs them. */
  lemma {:induction false} BloquesDeFilas(filas: seq<Ocupacion>, sala: string, b: int)
    ensures b in BloquesDe(filas, sala) <==> exists i :: 0 <= i < |filas| && filas[i] == Ocupacion(sala, b)
    decreases |filas|
  {
    if filas != [] {
      var previos := filas[..|filas| - 1];
      BloquesDeFilas(previos, sala, b);
      if exists i :: 0 <= i < |previos| && previos[i] == Ocupacion(sala, b) {
        var i :| 0 <= i < |previos| && previos[i] == Ocupacion(sala, b);
        assert filas[i] == previos[i];
      }
      if exists i :: 0 <= i < |filas| && filas[i] == Ocupacion(sala, b) {
        var i :| 0 <= i < |filas| && filas[i] == Ocupacion(sala, b);
        if i < |previos| {
          assert previos[i] == filas[i];
        }
      }
    }
  }

  // ---------------------------------------------------------------------------
  // The occupancy test and generar_tabla_resultados

  /** isset($mapa[$sala]) && in_array($b + 1, $mapa[$sala]): input blocks are 0-based, stored ones 1-based. */
  predicate Ocupada(mapa: map<string, seq<int>>, sala: string, b: int) {
    sala in mapa && b + 1 in mapa[sala]
  }

  /** On the map built from the day's rows, a room is occupied in block b exactly when a row has it starting in block b + 1. */
  lemma OcupadaSegunFilas(filas: seq<Ocupacion>, sala: string, b: int)
    ensures Ocupada(MapaDe(filas), sala, b) <==> exists i :: 0 <= i < |filas| && filas[i] == Ocupacion(sala, b + 1)
  {
    MapaCorrecto(filas, sala);
    BloquesDeFilas(filas, sala, b + 1);
  }

  /** A room that has no row on that day is free in every block. */
  lemma SinFilasLibre(filas: seq<Ocupacion>, sala: string, b: int)
    requires forall i :: 0 <= i < |filas| ==> filas[i].sala != sala
    ensures !Ocupada(MapaDe(filas), sala, b)
  {
    OcupadaSegunFilas(filas, sala, b);
  }

  /** One table row: the room, the code its link carries, and Ocupado (true) or Libre (false) per requested block. */
  datatype FilaTabla = FilaTabla(sala: string, enlace: string, ocupada: seq<bool>)

  /** The table: the column labels of the requested blocks and one row per room. */
  datatype Tabla = Tabla(rangos: seq<string>, filas: seq<FilaTabla>)

  /** The inner loop of generar_tabla_resultados: one cell per requested block, in the order requested. */
  method CeldasDeSala(mapa: map<string, seq<int>>, sala: string, bloques: seq<nat>) returns (celdas: seq<bool>)
    ensures |celdas| == |bloques|
    ensures forall j :: 0 <= j < |bloques| ==> celdas[j] == Ocupada(mapa, sala, bloques[j])
  {
    celdas := [];
    for j := 0 to |bloques|
      invariant |celdas| == j
      invariant forall k :: 0 <= k < j ==> celdas[k] == Ocupada(mapa, sala, bloques[k])
    {
      var ocupada := sala in mapa && bloques[j] + 1 in mapa[sala];
      celdas := celdas + [ocupada];
    }
  }

  /**
   * The two loops of generar_tabla_resultados: one column label per
   * requested block, then per room its link code and one cell per
   * requested block, in the order requested.
   */
  method GenerarTablaResultados(salas: seq<string>, mapa: map<string, seq<int>>, bloques: seq<nat>)
    returns (tabla: Tabla)
    ensures |tabla.rangos| == |bloques|
    ensures forall j :: 0 <= j < |bloques| ==> tabla.rangos[j] == Etiqueta(bloques[j])
    ensures |tabla.filas| == |salas|
    ensures forall i :: 0 <= i < |salas| ==>
              tabla.filas[i].sala == salas[i] && tabla.filas[i].enlace == QuitarPrefijoSala(salas[i])
              && |tabla.filas[i].ocupada| == |bloques|
    ensures forall i, j :: 0 <= i < |salas| && 0 <= j < |bloques| ==>
              tabla.filas[i].ocupada[j] == Ocupada(mapa, salas[i], bloques[j])
  {
    var rangos: seq<string> := [];
    for j := 0 to |bloques|
      invariant |rangos| == j
      invariant forall k :: 0 <= k < j ==> rangos[k] == Etiqueta(bloques[k])
    {
      rangos := rangos + [Etiqueta(bloques[j])];
    }
    var filas: seq<FilaTabla> := [];
    for i := 0 to |salas|
      invariant |filas| == i
      invariant forall k :: 0 <= k < i ==>
                  filas[k].sala == salas[k] && filas[k].enlace == QuitarPrefijoSala(salas[k])
                  && |filas[k].ocupada| == |bloques|
      invariant forall k, j :: 0 <= k < i && 0 <= j < |bloques| ==>
                  filas[k].ocupada[j] == Ocupada(mapa, salas[k], bloques[j])
    {
      var celdas := CeldasDeSala(mapa, salas[i], bloques);
      filas := filas + [FilaTabla(salas[i], QuitarPrefijoSala(salas[i]), celdas)];
    }
    tabla := Tabla(rangos, filas);
  }

  /** The column labels of requested blocks are distinct exactly when the blocks are. */
  lemma RangosDistintos(bloques: seq<nat>, j: nat, k: nat)
    requires j < |bloques| && k < |bloques|
    ensures Etiqueta(bloques[j]) == Etiqueta(bloques[k]) <==> bloques[j] == bloques[k]
  {
    if Etiqueta(bloques[j]) == Etiqueta(bloques[k]) {
      EtiquetasDistintas(bloques[j], bloques[k]);
    }
  }
}
