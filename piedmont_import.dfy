/**
 * The batch scraper's import of the scraped tree into the relational
 * database (prepararConexionBDD, insertarJsonHaciaBDD), against in-memory
 * tables: rows are maps from id to record and every INSERT takes the next
 * id.  The name -> id caches, the schedule rows, the replacement of the
 * semester and the ways the import can end are modelled; the SQL engine is
 * not.
 */
module PiedmontImport {
  import opened Wrappers
  import opened Text
  import opened Schedule
  import opened PiedmontScrape
  import SedonaMenu

  // ---------------------------------------------------------------------------
  // Professor names

  /** A professor name as stored: every " null" removed, then trimmed. */
  function LimpiarProfesor(n: string): (r: string)
    ensures NoEdgeSpace(r) && |r| <= |n|
  {
    Strip(RemoveAll(n, " null"))
  }

  /** A name without " null" is only trimmed; a name already clean is kept. */
  lemma LimpiarProfesorSinNull(n: string)
    requires forall i :: !OccursAt(n, " null", i)
    ensures LimpiarProfesor(n) == Strip(n)
    ensures NoEdgeSpace(n) ==> LimpiarProfesor(n) == n
  {
    RemoveAllAbsent(n, " null");
    if NoEdgeSpace(n) && n != [] {
      StripSinBordes(n);
    }
  }

  // ---------------------------------------------------------------------------
  // Schedule rows

  /** A row of the horario table: section, day 1..7, block 1..10, room. */
  datatype FilaHorario = FilaHorario(paralelo: nat, dia: nat, bloque: nat, sala: string)

  /** A leading "Sala " (this exact case) is dropped once. */
  function QuitarSala(s: string): (r: string)
    ensures StartsWith(s, "Sala ") ==> s == "Sala " + r
    ensures !StartsWith(s, "Sala ") ==> r == s
  {
    if StartsWith(s, "Sala ") then s[5..] else s
  }

  /** The row for one cell: none when the trimmed cell is empty. */
  function CeldaHorario(pid: nat, celda: string, b: nat, d: nat): seq<FilaHorario> {
    var s := Strip(celda);
    if s != "" then [FilaHorario(pid, d + 1, b + 1, QuitarSala(s))] else []
  }

  /** The rows for the first nd days of block b. */
  function FilasBloque(pid: nat, fila: seq<string>, b: nat, nd: nat): seq<FilaHorario>
    requires nd <= |fila|
  {
    if nd == 0 then [] else FilasBloque(pid, fila, b, nd - 1) + CeldaHorario(pid, fila[nd - 1], b, nd - 1)
  }

  /** The rows for the first nb blocks of a schedule, block by block, day by day. */
  function FilasHorario(pid: nat, h: seq<seq<string>>, nb: nat): seq<FilaHorario>
    requires nb <= |h|
  {
    if nb == 0 then [] else FilasHorario(pid, h, nb - 1) + FilasBloque(pid, h[nb - 1], nb - 1, |h[nb - 1]|)
  }

  /** r is the row written for the non-blank cell of block b, day d. */
  predicate EsFilaDe(pid: nat, celda: string, b: nat, d: nat, r: FilaHorario) {
    Strip(celda) != "" && r == FilaHorario(pid, d + 1, b + 1, QuitarSala(Strip(celda)))
  }

  lemma CeldaHorarioContenido(pid: nat, celda: string, b: nat, d: nat, r: FilaHorario)
    ensures r in CeldaHorario(pid, celda, b, d) <==> EsFilaDe(pid, celda, b, d, r)
  {
  }

  lemma {:induction false} FilasBloqueContenido(pid: nat, fila: seq<string>, b: nat, nd: nat, r: FilaHorario)
    requires nd <= |fila|
    ensures r in FilasBloque(pid, fila, b, nd) <==> exists d :: 0 <= d < nd && EsFilaDe(pid, fila[d], b, d, r)
  {
    if nd > 0 {
      var k := nd - 1;
      FilasBloqueContenido(pid, fila, b, k, r);
      CeldaHorarioContenido(pid, fila[k], b, k, r);
      assert FilasBloque(pid, fila, b, nd) == FilasBloque(pid, fila, b, k) + CeldaHorario(pid, fila[k], b, k);
      if r in FilasBloque(pid, fila, b, nd) {
        if r in FilasBloque(pid, fila, b, k) {
          var d :| 0 <= d < k && EsFilaDe(pid, fila[d], b, d, r);
          assert 0 <= d < nd;
        } else {
          assert EsFilaDe(pid, fila[k], b, k, r);
        }
      }
      if exists d :: 0 <= d < nd && EsFilaDe(pid, fila[d], b, d, r) {
        var d :| 0 <= d < nd && EsFilaDe(pid, fila[d], b, d, r);
        if d < k {
          assert r in FilasBloque(pid, fila, b, k);
        } else {
          assert d == k;
          assert EsFilaDe(pid, fila[k], b, k, r);
        }
      }
    }
  }

  /** Every row written for a schedule comes from a non-blank cell. */
  lemma {:induction false} FilasHorarioOrigen(pid: nat, h: seq<seq<string>>, nb: nat, r: FilaHorario)
    requires nb <= |h| && r in FilasHorario(pid, h, nb)
    ensures exists b, d :: 0 <= b < nb && 0 <= d < |h[b]| && EsFilaDe(pid, h[b][d], b, d, r)
  {
    var k := nb - 1;
    if r in FilasHorario(pid, h, k) {
      FilasHorarioOrigen(pid, h, k, r);
      var b, d :| 0 <= b < k && 0 <= d < |h[b]| && EsFilaDe(pid, h[b][d], b, d, r);
      assert 0 <= b < nb;
    } else {
      FilasBloqueContenido(pid, h[k], k, |h[k]|, r);
      var d :| 0 <= d < |h[k]| && EsFilaDe(pid, h[k][d], k, d, r);
      assert 0 <= k < nb;
    }
  }

  /** Every non-blank cell has its row written. */
  lemma {:induction false} FilasHorarioCubre(pid: nat, h: seq<seq<string>>, nb: nat, b: nat, d: nat, r: FilaHorario)
    requires nb <= |h| && b < nb && d < |h[b]| && EsFilaDe(pid, h[b][d], b, d, r)
    ensures r in FilasHorario(pid, h, nb)
  {
    var k := nb - 1;
    var bloque := FilasBloque(pid, h[k], k, |h[k]|);
    assert FilasHorario(pid, h, nb) == FilasHorario(pid, h, k) + bloque;
    if b == k {
      FilasBloqueContenido(pid, h[k], k, |h[k]|, r);
      assert 0 <= d < |h[k]| && EsFilaDe(pid, h[k][d], k, d, r);
      assert r in bloque;
    } else {
      FilasHorarioCubre(pid, h, k, b, d, r);
    }
  }

  /**
   * The rows of a schedule: exactly one per non-blank cell, with 1-based
   * day and block, the trimmed room with "Sala " dropped.
   */
  lemma FilasHorarioContenido(pid: nat, h: seq<seq<string>>, r: FilaHorario)
    ensures r in FilasHorario(pid, h, |h|) <==>
              exists b, d :: 0 <= b < |h| && 0 <= d < |h[b]| && EsFilaDe(pid, h[b][d], b, d, r)
  {
    if r in FilasHorario(pid, h, |h|) {
      FilasHorarioOrigen(pid, h, |h|, r);
    }
    if exists b, d :: 0 <= b < |h| && 0 <= d < |h[b]| && EsFilaDe(pid, h[b][d], b, d, r) {
      var b, d :| 0 <= b < |h| && 0 <= d < |h[b]| && EsFilaDe(pid, h[b][d], b, d, r);
      FilasHorarioCubre(pid, h, |h|, b, d, r);
    }
  }

  /** The inner loop of a schedule insert: the cells of block b, day by day. */
  method InsertarBloque(horarios: seq<FilaHorario>, pid: nat, fila: seq<string>, b: nat) returns (r: seq<FilaHorario>)
    ensures r == horarios + FilasBloque(pid, fila, b, |fila|)
  {
    r := horarios;
    for d := 0 to |fila|
      invariant r == horarios + FilasBloque(pid, fila, b, d)
    {
      var previas := FilasBloque(pid, fila, b, d);
      var celda := CeldaHorario(pid, fila[d], b, d);
      assert FilasBloque(pid, fila, b, d + 1) == previas + celda;
      assert (horarios + previas) + celda == horarios + (previas + celda);
      var sala := Strip(fila[d]);
      if sala != "" {
        r := r + [FilaHorario(pid, d + 1, b + 1, QuitarSala(sala))];
      }
      assert r == horarios + previas + celda;
    }
  }

  /** One of the two identical loops inserting a section's schedule rows. */
  method InsertarHorario(horarios: seq<FilaHorario>, pid: nat, h: seq<seq<string>>) returns (r: seq<FilaHorario>)
    ensures r == horarios + FilasHorario(pid, h, |h|)
  {
    r := horarios;
    for b := 0 to |h|
      invariant r == horarios + FilasHorario(pid, h, b)
    {
      var bloque := FilasBloque(pid, h[b], b, |h[b]|);
      assert FilasHorario(pid, h, b + 1) == FilasHorario(pid, h, b) + bloque;
      assert (horarios + FilasHorario(pid, h, b)) + bloque == horarios + (FilasHorario(pid, h, b) + bloque);
      r := InsertarBloque(r, pid, h[b], b);
    }
  }

  // ---------------------------------------------------------------------------
  // Tables

  datatype Asignatura = Asignatura(semestre: nat, codigo: Option<string>, nombre: Option<string>, departamento: Option<string>)
  datatype Paralelo = Paralelo(asignatura: nat, paralelo: string, cupos: string)

  /**
   * The tables the import writes, each keyed by its id except horario,
   * whose rows are kept in insertion order, and paralelo_profesor, a set of
   * (paralelo, profesor) links; proximo is the next id an INSERT hands out.
   */
  datatype Bdd = Bdd(
    campus: map<nat, string>,
    semestres: map<nat, (nat, string)>,
    asignaturas: map<nat, Asignatura>,
    paralelos: map<nat, Paralelo>,
    profesores: map<nat, string>,
    dictados: set<(nat, nat)>,
    horarios: seq<FilaHorario>,
    proximo: nat)

  /** Two paralelo rows with the same unique key (subject, label). */
  predicate MismaClave(x: Paralelo, y: Paralelo) {
    x.asignatura == y.asignatura && x.paralelo == y.paralelo
  }

  predicate SubMapa<K, V(==)>(a: map<K, V>, b: map<K, V>) {
    forall k :: k in a ==> k in b && b[k] == a[k]
  }

  /** Every id is positive and below the next one to be handed out. */
  predicate Bajo<V>(m: map<nat, V>, p: nat) {
    forall id :: id in m ==> 0 < id < p
  }

  predicate IdsValidos(bd: Bdd) {
    0 < bd.proximo && Bajo(bd.campus, bd.proximo) && Bajo(bd.semestres, bd.proximo)
    && Bajo(bd.asignaturas, bd.proximo) && Bajo(bd.paralelos, bd.proximo)
  }

  /** The foreign keys the cascade follows: asignatura to semestre, paralelo to asignatura. */
  predicate Referencias(bd: Bdd) {
    (forall a :: a in bd.asignaturas ==> bd.asignaturas[a].semestre in bd.semestres)
    && (forall p :: p in bd.paralelos ==> bd.paralelos[p].asignatura in bd.asignaturas)
  }

  /** Uniqueness of campus by name and of semestre by (campus, code). */
  predicate CampusYSemestresUnicos(bd: Bdd) {
    (forall i, j :: i in bd.campus && j in bd.campus && bd.campus[i] == bd.campus[j] ==> i == j)
    && (forall i, j :: i in bd.semestres && j in bd.semestres && bd.semestres[i] == bd.semestres[j] ==> i == j)
  }

  /** Uniqueness of paralelo by (subject, label). */
  predicate ParalelosUnicos(paralelos: map<nat, Paralelo>) {
    forall i, j :: i in paralelos && j in paralelos && MismaClave(paralelos[i], paralelos[j]) ==> i == j
  }

  predicate Unicos(bd: Bdd) {
    CampusYSemestresUnicos(bd) && ParalelosUnicos(bd.paralelos)
  }

  predicate Valida(bd: Bdd) {
    IdsValidos(bd) && Referencias(bd) && Unicos(bd)
  }

  /** The profesor table's uniqueness of names. */
  predicate ProfesoresUnicos(tabla: map<nat, string>) {
    forall i, j :: i in tabla && j in tabla && tabla[i] == tabla[j] ==> i == j
  }

  /** b is a later state of a within one import: rows are only added, paralelo keys kept, ids fresh. */
  predicate Extiende(a: Bdd, b: Bdd) {
    a.proximo <= b.proximo
    && SubMapa(a.campus, b.campus)
    && SubMapa(a.semestres, b.semestres) && (forall s :: s in b.semestres ==> s in a.semestres || a.proximo <= s)
    && SubMapa(a.asignaturas, b.asignaturas)
    && (forall p :: p in a.paralelos ==> p in b.paralelos && MismaClave(a.paralelos[p], b.paralelos[p]))
    && SubMapa(a.profesores, b.profesores)
    && a.dictados <= b.dictados
    && a.horarios <= b.horarios
  }

  lemma ExtiendeTransitiva(a: Bdd, b: Bdd, c: Bdd)
    requires Extiende(a, b) && Extiende(b, c)
    ensures Extiende(a, c)
  {
    assert a.horarios == c.horarios[..|a.horarios|] by {
      assert b.horarios[..|a.horarios|] == c.horarios[..|b.horarios|][..|a.horarios|];
    }
  }

  // ---------------------------------------------------------------------------
  // Professors

  /** cache maps every name of the profesor table to its id, and back. */
  predicate CacheExacta(tabla: map<nat, string>, cache: map<string, nat>) {
    (forall n :: n in cache ==> cache[n] in tabla && tabla[cache[n]] == n)
    && (forall id :: id in tabla ==> tabla[id] in cache && cache[tabla[id]] == id)
  }

  /** A table with an exact cache has unique names. */
  lemma CacheExactaUnicos(tabla: map<nat, string>, cache: map<string, nat>)
    requires CacheExacta(tabla, cache)
    ensures ProfesoresUnicos(tabla)
  {
    forall i, j | i in tabla && j in tabla && tabla[i] == tabla[j]
      ensures i == j
    {
      assert cache[tabla[i]] == i && cache[tabla[j]] == j;
    }
  }

  /** The name -> id dictionary read from the profesor table. */
  method CargarCacheProfesores(tabla: map<nat, string>) returns (cache: map<string, nat>)
    requires ProfesoresUnicos(tabla)
    ensures CacheExacta(tabla, cache)
  {
    cache := map[];
    var resto := tabla.Keys;
    while resto != {}
      invariant resto <= tabla.Keys
      invariant forall n :: n in cache ==> cache[n] in tabla && cache[n] !in resto && tabla[cache[n]] == n
      invariant forall id :: id in tabla && id !in resto ==> tabla[id] in cache && cache[tabla[id]] == id
      decreases resto
    {
      var id :| id in resto;
      cache := cache[tabla[id] := id];
      resto := resto - {id};
    }
  }

  /**
   * What the professor loop reads and writes: the profesor table, the
   * cache, the paralelo_profesor links, the id counter, and whether the
   * function's local profesor_id has been bound yet.
   */
  datatype Docentes = Docentes(tabla: map<nat, string>, cache: map<string, nat>, dictados: set<(nat, nat)>,
                               proximo: nat, vinculado: bool)

  predicate DocentesValidos(x: Docentes) {
    0 < x.proximo && Bajo(x.tabla, x.proximo) && CacheExacta(x.tabla, x.cache)
  }

  /** The table and the cache only grow, links are only added, a bound profesor_id stays bound. */
  predicate Amplia(x: Docentes, y: Docentes) {
    x.proximo <= y.proximo && SubMapa(x.tabla, y.tabla) && SubMapa(x.cache, y.cache)
    && x.dictados <= y.dictados && (x.vinculado ==> y.vinculado)
  }

  /** Professor n is cached and linked to section pid. */
  predicate Vinculado(x: Docentes, pid: nat, n: string) {
    n in x.cache && (pid, x.cache[n]) in x.dictados
  }

  lemma VinculadoPersiste(x: Docentes, y: Docentes, pid: nat, n: string)
    requires Amplia(x, y) && Vinculado(x, pid, n)
    ensures Vinculado(y, pid, n)
  {
  }

  /** One name of the loop: cleaned; if non-empty, a cache hit or an INSERT into profesor and the cache, then the link. */
  function PasoProfesor(x: Docentes, pid: nat, nombre: string): Docentes {
    var n := LimpiarProfesor(nombre);
    if n == "" then x
    else if n in x.cache then x.(dictados := x.dictados + {(pid, x.cache[n])}, vinculado := true)
    else x.(tabla := x.tabla[x.proximo := n], cache := x.cache[n := x.proximo], proximo := x.proximo + 1,
            dictados := x.dictados + {(pid, x.proximo)}, vinculado := true)
  }

  /** The professor loop over a section's names, as a left fold of PasoProfesor. */
  function VincularTodos(x: Docentes, pid: nat, nombres: seq<string>): Docentes {
    if nombres == [] then x else PasoProfesor(VincularTodos(x, pid, nombres[..|nombres| - 1]), pid, nombres[|nombres| - 1])
  }

  lemma PasoProfesorPropiedades(x: Docentes, pid: nat, nombre: string)
    requires DocentesValidos(x)
    ensures var y := PasoProfesor(x, pid, nombre);
            DocentesValidos(y) && Amplia(x, y)
            && (LimpiarProfesor(nombre) != "" ==> Vinculado(y, pid, LimpiarProfesor(nombre)))
            && (forall d :: d in y.dictados && d !in x.dictados ==> d.0 == pid)
            && (y.vinculado <==> x.vinculado || LimpiarProfesor(nombre) != "")
            && (LimpiarProfesor(nombre) in x.cache ==> y.tabla == x.tabla && y.cache == x.cache)
  {
  }

  /** The professor loop keeps the cache exact and lets it, the table and the links only grow; all new links are for the section. */
  lemma {:induction false} VincularTodosValida(x: Docentes, pid: nat, nombres: seq<string>)
    requires DocentesValidos(x)
    ensures var y := VincularTodos(x, pid, nombres);
            DocentesValidos(y) && Amplia(x, y) && (forall d :: d in y.dictados && d !in x.dictados ==> d.0 == pid)
  {
    if nombres != [] {
      var k := |nombres| - 1;
      VincularTodosValida(x, pid, nombres[..k]);
      PasoProfesorPropiedades(VincularTodos(x, pid, nombres[..k]), pid, nombres[k]);
    }
  }

  /** After the professor loop every cleaned, non-empty name is cached and linked to the section. */
  lemma {:induction false} VincularTodosEnlaza(x: Docentes, pid: nat, nombres: seq<string>)
    requires DocentesValidos(x)
    ensures forall i :: 0 <= i < |nombres| && LimpiarProfesor(nombres[i]) != "" ==>
                          Vinculado(VincularTodos(x, pid, nombres), pid, LimpiarProfesor(nombres[i]))
  {
    if nombres != [] {
      var k := |nombres| - 1;
      var previos := nombres[..k];
      VincularTodosEnlaza(x, pid, previos);
      VincularTodosValida(x, pid, previos);
      var z := VincularTodos(x, pid, previos);
      var y := VincularTodos(x, pid, nombres);
      PasoProfesorPropiedades(z, pid, nombres[k]);
      forall i | 0 <= i < k && LimpiarProfesor(nombres[i]) != ""
        ensures Vinculado(y, pid, LimpiarProfesor(nombres[i]))
      {
        assert previos[i] == nombres[i];
        VinculadoPersiste(z, y, pid, LimpiarProfesor(nombres[i]));
      }
    }
  }

  /** Some name of the list is non-empty once cleaned. */
  predicate HayNombre(nombres: seq<string>) {
    exists i :: 0 <= i < |nombres| && LimpiarProfesor(nombres[i]) != ""
  }

  /** A list has a non-empty cleaned name iff its prefix has one or its last name is one. */
  lemma HayNombreUltimo(nombres: seq<string>)
    requires nombres != []
    ensures HayNombre(nombres) <==> HayNombre(nombres[..|nombres| - 1]) || LimpiarProfesor(nombres[|nombres| - 1]) != ""
  {
    var previos := nombres[..|nombres| - 1];
    if HayNombre(previos) {
      var i :| 0 <= i < |previos| && LimpiarProfesor(previos[i]) != "";
      assert nombres[i] == previos[i];
    }
    if HayNombre(nombres) {
      var i :| 0 <= i < |nombres| && LimpiarProfesor(nombres[i]) != "";
      if i < |previos| {
        assert previos[i] == nombres[i];
      }
    }
  }

  /** profesor_id is bound after the loop iff it was before or some cleaned name was non-empty. */
  lemma {:induction false} VincularTodosLiga(x: Docentes, pid: nat, nombres: seq<string>)
    ensures VincularTodos(x, pid, nombres).vinculado <==> x.vinculado || HayNombre(nombres)
  {
    if nombres != [] {
      var k := |nombres| - 1;
      VincularTodosLiga(x, pid, nombres[..k]);
      HayNombreUltimo(nombres);
    }
  }

  /** A name already cached adds no profesor row: each new name is inserted once. */
  lemma {:induction false} NombreCacheadoNoSeInserta(x: Docentes, pid: nat, nombres: seq<string>)
    requires DocentesValidos(x)
    requires forall i :: 0 <= i < |nombres| ==> LimpiarProfesor(nombres[i]) == "" || LimpiarProfesor(nombres[i]) in x.cache
    ensures VincularTodos(x, pid, nombres).tabla == x.tabla
    ensures VincularTodos(x, pid, nombres).cache == x.cache
  {
    if nombres != [] {
      var k := |nombres| - 1;
      NombreCacheadoNoSeInserta(x, pid, nombres[..k]);
      VincularTodosValida(x, pid, nombres[..k]);
      PasoProfesorPropiedades(VincularTodos(x, pid, nombres[..k]), pid, nombres[k]);
    }
  }

  /** The professor loop of one section (see VincularTodosValida, VincularTodosEnlaza and VincularTodosLiga). */
  method VincularProfesores(x: Docentes, pid: nat, nombres: seq<string>) returns (y: Docentes)
    requires DocentesValidos(x)
    ensures y == VincularTodos(x, pid, nombres)
    ensures DocentesValidos(y) && Amplia(x, y)
    ensures forall i :: 0 <= i < |nombres| && LimpiarProfesor(nombres[i]) != "" ==> Vinculado(y, pid, LimpiarProfesor(nombres[i]))
    ensures y.vinculado <==> x.vinculado || HayNombre(nombres)
  {
    y := x;
    for i := 0 to |nombres|
      invariant y == VincularTodos(x, pid, nombres[..i])
    {
      assert nombres[..i + 1][..i] == nombres[..i];
      var nombre := Strip(RemoveAll(nombres[i], " null"));
      if nombre != "" {
        var id: nat;
        if nombre in y.cache {
          id := y.cache[nombre];
        } else {
          id := y.proximo;
          y := y.(tabla := y.tabla[id := nombre], cache := y.cache[nombre := id], proximo := id + 1);
        }
        y := y.(dictados := y.dictados + {(pid, id)}, vinculado := true);
      }
    }
    assert nombres[..|nombres|] == nombres;
    VincularTodosValida(x, pid, nombres);
    VincularTodosEnlaza(x, pid, nombres);
    VincularTodosLiga(x, pid, nombres);
  }

  // ---------------------------------------------------------------------------
  // Sections

  /** The import's running state: the tables, the professor cache, whether profesor_id is bound. */
  datatype Progreso = Progreso(bd: Bdd, profesores: map<string, nat>, vinculado: bool)

  function DocentesDe(c: Progreso): Docentes {
    Docentes(c.bd.profesores, c.profesores, c.bd.dictados, c.bd.proximo, c.vinculado)
  }

  predicate ProgresoValido(c: Progreso) {
    Valida(c.bd) && DocentesValidos(DocentesDe(c))
  }

  predicate Avanza(a: Progreso, b: Progreso) {
    Extiende(a.bd, b.bd) && SubMapa(a.profesores, b.profesores) && (a.vinculado ==> b.vinculado)
  }

  lemma AvanzaTransitiva(a: Progreso, b: Progreso, c: Progreso)
    requires Avanza(a, b) && Avanza(b, c)
    ensures Avanza(a, c)
  {
    ExtiendeTransitiva(a.bd, b.bd, c.bd);
  }

  /** A step inside one semester: the state stays valid and grows, campus and semestre rows untouched. */
  predicate Paso(a: Progreso, b: Progreso) {
    ProgresoValido(b) && Avanza(a, b) && b.bd.campus == a.bd.campus && b.bd.semestres == a.bd.semestres
  }

  lemma PasoTransitivo(a: Progreso, b: Progreso, c: Progreso)
    requires Paso(a, b) && Paso(b, c)
    ensures Paso(a, c)
  {
    AvanzaTransitiva(a, b, c);
  }

  /** Raising the counter and changing only profesor, paralelo_profesor and horario keeps the constraints. */
  lemma ValidaSinClaves(bd: Bdd, r: Bdd)
    requires Valida(bd) && bd.proximo <= r.proximo
    requires r == bd.(profesores := r.profesores, dictados := r.dictados, horarios := r.horarios, proximo := r.proximo)
    ensures Valida(r)
  {
  }

  /**
   * INSERT ... ON DUPLICATE KEY UPDATE on paralelo: the row with key
   * (subject, label) gets the new cupos and its id is returned; without
   * one, a new row is inserted.
   */
  method UpsertParalelo(bd: Bdd, aid: nat, etiqueta: string, cupos: string) returns (r: Bdd, pid: nat)
    requires Valida(bd) && aid in bd.asignaturas
    ensures Valida(r) && Extiende(bd, r)
    ensures r == bd.(paralelos := r.paralelos, proximo := r.proximo)
    ensures r.paralelos == bd.paralelos[pid := Paralelo(aid, etiqueta, cupos)]
    ensures pid in bd.paralelos ==> MismaClave(bd.paralelos[pid], Paralelo(aid, etiqueta, cupos)) && r.proximo == bd.proximo
    ensures pid !in bd.paralelos ==> pid == bd.proximo && r.proximo == bd.proximo + 1
    ensures pid in bd.paralelos <==> exists q :: q in bd.paralelos && MismaClave(bd.paralelos[q], Paralelo(aid, etiqueta, cupos))
  {
    var fila := Paralelo(aid, etiqueta, cupos);
    if exists q :: q in bd.paralelos && MismaClave(bd.paralelos[q], fila) {
      pid :| pid in bd.paralelos && MismaClave(bd.paralelos[pid], fila);
      ReemplazarParalelo(bd, pid, fila);
      r := ConParalelo(bd, pid, fila);
    } else {
      pid := bd.proximo;
      AltaParalelo(bd, fila);
      r := NuevoParalelo(bd, fila);
    }
  }

  function ConParalelo(bd: Bdd, pid: nat, fila: Paralelo): Bdd {
    bd.(paralelos := bd.paralelos[pid := fila])
  }

  function NuevoParalelo(bd: Bdd, fila: Paralelo): Bdd {
    bd.(paralelos := bd.paralelos[bd.proximo := fila], proximo := bd.proximo + 1)
  }

  /** Updating the cupos of an existing paralelo row keeps the constraints. */
  lemma ReemplazarParalelo(bd: Bdd, pid: nat, fila: Paralelo)
    requires Valida(bd) && pid in bd.paralelos && MismaClave(bd.paralelos[pid], fila)
    ensures Valida(ConParalelo(bd, pid, fila)) && Extiende(bd, ConParalelo(bd, pid, fila))
  {
    var r := ConParalelo(bd, pid, fila);
    assert CampusYSemestresUnicos(r) by {
      assert r.campus == bd.campus && r.semestres == bd.semestres;
    }
    assert ParalelosUnicos(r.paralelos) by {
      forall i, j | i in r.paralelos && j in r.paralelos && MismaClave(r.paralelos[i], r.paralelos[j])
        ensures i == j
      {
        assert MismaClave(bd.paralelos[i], bd.paralelos[j]);
      }
    }
  }

  /** Inserting a paralelo row whose key is new keeps the constraints. */
  lemma AltaParalelo(bd: Bdd, fila: Paralelo)
    requires Valida(bd) && fila.asignatura in bd.asignaturas
    requires forall q :: q in bd.paralelos ==> !MismaClave(bd.paralelos[q], fila)
    ensures Valida(NuevoParalelo(bd, fila)) && Extiende(bd, NuevoParalelo(bd, fila))
  {
    var r := NuevoParalelo(bd, fila);
    assert CampusYSemestresUnicos(r) by {
      assert r.campus == bd.campus && r.semestres == bd.semestres;
    }
  }

  /** The subject has a paralelo row with this label. */
  predicate TieneParalelo(bd: Bdd, aid: nat, etiqueta: string) {
    exists p :: p in bd.paralelos && bd.paralelos[p].asignatura == aid && bd.paralelos[p].paralelo == etiqueta
  }

  lemma TieneParaleloPersiste(a: Bdd, b: Bdd, aid: nat, etiqueta: string)
    requires Extiende(a, b) && TieneParalelo(a, aid, etiqueta)
    ensures TieneParalelo(b, aid, etiqueta)
  {
    var p :| p in a.paralelos && a.paralelos[p].asignatura == aid && a.paralelos[p].paralelo == etiqueta;
    assert MismaClave(a.paralelos[p], b.paralelos[p]);
  }

  /** The paralelo upsert and the professor loop of one section. */
  method RegistrarSeccion(c0: Progreso, aid: nat, s: Seccion) returns (c: Progreso, pid: nat)
    requires ProgresoValido(c0) && aid in c0.bd.asignaturas
    ensures Paso(c0, c) && c.bd.asignaturas == c0.bd.asignaturas
    ensures c.bd.horarios == c0.bd.horarios
    ensures pid in c.bd.paralelos && c.bd.paralelos[pid] == Paralelo(aid, s.paralelo, s.cupos)
    ensures forall i :: 0 <= i < |s.profesores| && LimpiarProfesor(s.profesores[i]) != "" ==>
                          Vinculado(DocentesDe(c), pid, LimpiarProfesor(s.profesores[i]))
    ensures c.vinculado <==> c0.vinculado || HayNombre(s.profesores)
  {
    var bd;
    bd, pid := UpsertParalelo(c0.bd, aid, s.paralelo, s.cupos);
    var x := VincularProfesores(Docentes(bd.profesores, c0.profesores, bd.dictados, bd.proximo, c0.vinculado), pid, s.profesores);
    var bd2 := bd.(profesores := x.tabla, dictados := x.dictados, proximo := x.proximo);
    ValidaSinClaves(bd, bd2);
    ExtiendeTransitiva(c0.bd, bd, bd2);
    c := Progreso(bd2, x.cache, x.vinculado);
    assert DocentesDe(c) == x;
  }

  /**
   * One section: the paralelo upsert, the professor loop, then the two
   * identical schedule loops.  The first of these prints profesor_id after
   * each block, so a section with a non-empty schedule makes the import
   * fail (ok false) when no professor has been bound yet in the import.
   */
  method ProcesarParalelo(c0: Progreso, aid: nat, s: Seccion) returns (ok: bool, c: Progreso, pid: nat)
    requires ProgresoValido(c0) && aid in c0.bd.asignaturas
    ensures Paso(c0, c) && c.bd.asignaturas == c0.bd.asignaturas
    ensures pid in c.bd.paralelos && c.bd.paralelos[pid] == Paralelo(aid, s.paralelo, s.cupos)
    ensures forall i :: 0 <= i < |s.profesores| && LimpiarProfesor(s.profesores[i]) != "" ==>
                          Vinculado(DocentesDe(c), pid, LimpiarProfesor(s.profesores[i]))
    ensures c.vinculado <==> c0.vinculado || HayNombre(s.profesores)
    ensures ok <==> c.vinculado || |s.horario| == 0
    ensures ok ==> c.bd.horarios == c0.bd.horarios + FilasHorario(pid, s.horario, |s.horario|) + FilasHorario(pid, s.horario, |s.horario|)
  {
    var c1;
    c1, pid := RegistrarSeccion(c0, aid, s);
    c := c1;
    if !c1.vinculado && |s.horario| > 0 {
      return false, c, pid;
    }
    var horarios := InsertarHorario(c1.bd.horarios, pid, s.horario);
    horarios := InsertarHorario(horarios, pid, s.horario);
    c := ConHorarios(c1, horarios);
    ProgresoConHorarios(c1, horarios);
    PasoTransitivo(c0, c1, c);
    ok := true;
  }

  /** Appending horario rows keeps the import's state valid and extends it. */
  function ConHorarios(c: Progreso, horarios: seq<FilaHorario>): Progreso {
    c.(bd := c.bd.(horarios := horarios))
  }

  lemma ProgresoConHorarios(c: Progreso, horarios: seq<FilaHorario>)
    requires ProgresoValido(c) && c.bd.horarios <= horarios
    ensures Paso(c, ConHorarios(c, horarios))
  {
    ValidaSinClaves(c.bd, c.bd.(horarios := horarios));
  }

  // ---------------------------------------------------------------------------
  // Where the import stops

  /**
   * Processing sections in order, starting with profesor_id bound or not
   * (v): does some section reach its first schedule loop with a non-empty
   * schedule while profesor_id is still unbound (a NameError)?
   */
  function FallaSecciones(v: bool, secs: seq<Seccion>): bool
    decreases secs
  {
    if secs == [] then false
    else
      var v1 := v || HayNombre(secs[0].profesores);
      (!v1 && |secs[0].horario| > 0) || FallaSecciones(v1, secs[1..])
  }

  /** Whether profesor_id is bound after processing the sections in order. */
  function LigadoTras(v: bool, secs: seq<Seccion>): bool
    decreases secs
  {
    if secs == [] then v else LigadoTras(v || HayNombre(secs[0].profesores), secs[1..])
  }

  /** profesor_id ends up bound iff it was, or some section lists a non-empty cleaned name. */
  lemma {:induction false} LigadoTrasExiste(v: bool, secs: seq<Seccion>)
    ensures LigadoTras(v, secs) <==> v || exists j :: 0 <= j < |secs| && HayNombre(secs[j].profesores)
    decreases secs
  {
    if secs != [] {
      LigadoTrasExiste(v || HayNombre(secs[0].profesores), secs[1..]);
      if exists j :: 0 <= j < |secs| - 1 && HayNombre(secs[1..][j].profesores) {
        var j :| 0 <= j < |secs| - 1 && HayNombre(secs[1..][j].profesores);
        assert secs[j + 1] == secs[1..][j];
      }
      if exists j :: 0 <= j < |secs| && HayNombre(secs[j].profesores) {
        var j :| 0 <= j < |secs| && HayNombre(secs[j].profesores);
        if j > 0 {
          assert secs[1..][j - 1] == secs[j];
        }
      }
    }
  }

  /** Once profesor_id is bound no later section can fail. */
  lemma {:induction false} LigadoNoFalla(secs: seq<Seccion>)
    ensures !FallaSecciones(true, secs)
  {
    if secs != [] {
      LigadoNoFalla(secs[1..]);
    }
  }

  /** The import of a + b fails iff a fails, or b fails from the binding a leaves. */
  lemma {:induction false} FallaConcat(v: bool, a: seq<Seccion>, b: seq<Seccion>)
    ensures FallaSecciones(v, a + b) == (FallaSecciones(v, a) || FallaSecciones(LigadoTras(v, a), b))
    ensures LigadoTras(v, a + b) == LigadoTras(LigadoTras(v, a), b)
    decreases a
  {
    if a == [] {
      assert a + b == b;
    } else {
      assert (a + b)[0] == a[0] && (a + b)[1..] == a[1..] + b;
      FallaConcat(v || HayNombre(a[0].profesores), a[1..], b);
    }
  }

  // ---------------------------------------------------------------------------
  // Subjects

  /**
   * cache is the code -> id dictionary of the subjects of semester sid: each
   * entry is a subject of that semester with that code, and every code of
   * the semester has an entry (the last row read wins among duplicates).
   */
  predicate CacheAsignaturas(asignaturas: map<nat, Asignatura>, sid: nat, cache: map<Option<string>, nat>) {
    (forall c :: c in cache ==> cache[c] in asignaturas && asignaturas[cache[c]].semestre == sid && asignaturas[cache[c]].codigo == c)
    && (forall a :: a in asignaturas && asignaturas[a].semestre == sid ==> asignaturas[a].codigo in cache)
  }

  /** The code -> id dictionary read from the subjects of one semester. */
  method CargarCacheAsignaturas(asignaturas: map<nat, Asignatura>, sid: nat) returns (cache: map<Option<string>, nat>)
    ensures CacheAsignaturas(asignaturas, sid, cache)
  {
    cache := map[];
    var resto := set a | a in asignaturas && asignaturas[a].semestre == sid;
    while resto != {}
      invariant forall a :: a in resto ==> a in asignaturas && asignaturas[a].semestre == sid
      invariant forall c :: c in cache ==> cache[c] in asignaturas && asignaturas[cache[c]].semestre == sid && asignaturas[cache[c]].codigo == c
      invariant forall a :: a in asignaturas && asignaturas[a].semestre == sid && a !in resto ==> asignaturas[a].codigo in cache
      decreases resto
    {
      var a :| a in resto;
      cache := cache[asignaturas[a].codigo := a];
      resto := resto - {a};
    }
  }

  /** Subject ids that b has and a had not were handed out at or after a's counter. */
  predicate AsignaturasNuevas(a: Bdd, b: Bdd) {
    forall x :: x in b.asignaturas ==> x in a.asignaturas || a.proximo <= x
  }

  lemma AsignaturasNuevasTransitiva(a: Bdd, b: Bdd, c: Bdd)
    requires a.proximo <= b.proximo && AsignaturasNuevas(a, b) && AsignaturasNuevas(b, c)
    ensures AsignaturasNuevas(a, c)
  {
  }

  /** Inserting a subject of an existing semester keeps the constraints. */
  function ConAsignatura(c: Progreso, fila: Asignatura): Progreso {
    c.(bd := c.bd.(asignaturas := c.bd.asignaturas[c.bd.proximo := fila], proximo := c.bd.proximo + 1))
  }

  lemma AltaAsignatura(c: Progreso, fila: Asignatura)
    requires ProgresoValido(c) && fila.semestre in c.bd.semestres
    ensures Paso(c, ConAsignatura(c, fila))
  {
    var bd := ConAsignatura(c, fila).bd;
    assert CampusYSemestresUnicos(bd) by {
      assert bd.campus == c.bd.campus && bd.semestres == c.bd.semestres;
    }
  }

  /** The loop over a subject's sections. */
  method ProcesarSecciones(c0: Progreso, aid: nat, secs: seq<Seccion>) returns (ok: bool, c: Progreso)
    requires ProgresoValido(c0) && aid in c0.bd.asignaturas
    ensures Paso(c0, c) && c.bd.asignaturas == c0.bd.asignaturas
    ensures ok <==> !FallaSecciones(c0.vinculado, secs)
    ensures ok ==> c.vinculado == LigadoTras(c0.vinculado, secs)
    ensures ok ==> forall j :: 0 <= j < |secs| ==> TieneParalelo(c.bd, aid, secs[j].paralelo)
  {
    c := c0;
    for j := 0 to |secs|
      invariant Paso(c0, c) && c.bd.asignaturas == c0.bd.asignaturas
      invariant FallaSecciones(c0.vinculado, secs) == FallaSecciones(c.vinculado, secs[j..])
      invariant LigadoTras(c0.vinculado, secs) == LigadoTras(c.vinculado, secs[j..])
      invariant forall i :: 0 <= i < j ==> TieneParalelo(c.bd, aid, secs[i].paralelo)
    {
      var okp, c2, pid := ProcesarParalelo(c, aid, secs[j]);
      assert secs[j..][0] == secs[j] && secs[j..][1..] == secs[j + 1..];
      PasoTransitivo(c0, c, c2);
      if !okp {
        return false, c2;
      }
      forall i | 0 <= i < j
        ensures TieneParalelo(c2.bd, aid, secs[i].paralelo)
      {
        TieneParaleloPersiste(c.bd, c2.bd, aid, secs[i].paralelo);
      }
      c := c2;
    }
    ok := true;
  }

  /**
   * The cache lookup of a subject and, when its code is not cached, the
   * INSERT with the name and department of its first section.  Ids are
   * positive, so `not asignatura_id` holds exactly for a missing code.
   */
  method BuscarOCrearAsignatura(c0: Progreso, sid: nat, cache0: map<Option<string>, nat>, codigo: Option<string>, primera: Seccion)
    returns (c: Progreso, cache: map<Option<string>, nat>, aid: nat)
    requires ProgresoValido(c0) && sid in c0.bd.semestres && CacheAsignaturas(c0.bd.asignaturas, sid, cache0)
    ensures Paso(c0, c) && c.vinculado == c0.vinculado
    ensures CacheAsignaturas(c.bd.asignaturas, sid, cache) && cache == cache0[codigo := aid]
    ensures codigo in cache0 ==> aid == cache0[codigo] && c.bd.asignaturas == c0.bd.asignaturas
    ensures codigo !in cache0 ==>
              aid == c0.bd.proximo && c.bd.asignaturas == c0.bd.asignaturas[aid := Asignatura(sid, codigo, primera.nombre, primera.departamento)]
  {
    c := c0;
    cache := cache0;
    if codigo !in cache {
      aid := c0.bd.proximo;
      var fila := Asignatura(sid, codigo, primera.nombre, primera.departamento);
      AltaAsignatura(c0, fila);
      c := ConAsignatura(c0, fila);
      cache := cache[codigo := aid];
    } else {
      aid := cache[codigo];
    }
  }

  /**
   * One subject: its row, then its sections.  An empty section list fails
   * at paralelos[0] (IndexError) before anything is written.
   */
  method ProcesarAsignatura(c0: Progreso, sid: nat, cache0: map<Option<string>, nat>, codigo: Option<string>, secs: seq<Seccion>)
    returns (ok: bool, c: Progreso, cache: map<Option<string>, nat>)
    requires ProgresoValido(c0) && sid in c0.bd.semestres && CacheAsignaturas(c0.bd.asignaturas, sid, cache0)
    ensures Ampliado(c0, c)
    ensures ok <==> secs != [] && !FallaSecciones(c0.vinculado, secs)
    ensures ok ==> c.vinculado == LigadoTras(c0.vinculado, secs)
    ensures ok ==> CacheAsignaturas(c.bd.asignaturas, sid, cache) && codigo in cache && cache == cache0[codigo := cache[codigo]]
    ensures ok && codigo in cache0 ==> c.bd.asignaturas == c0.bd.asignaturas
    ensures ok && codigo !in cache0 ==>
              cache[codigo] == c0.bd.proximo
              && c.bd.asignaturas == c0.bd.asignaturas[cache[codigo] := Asignatura(sid, codigo, secs[0].nombre, secs[0].departamento)]
    ensures ok ==> forall j :: 0 <= j < |secs| ==> TieneParalelo(c.bd, cache[codigo], secs[j].paralelo)
  {
    if secs == [] {
      return false, c0, cache0;
    }
    var c1, aid;
    c1, cache, aid := BuscarOCrearAsignatura(c0, sid, cache0, codigo, secs[0]);
    ok, c := ProcesarSecciones(c1, aid, secs);
    PasoTransitivo(c0, c1, c);
  }

  // ---------------------------------------------------------------------------
  // Semesters

  /** A period of the scraped tree: its key (e.g. "20251") and its subjects. */
  datatype Periodo = Periodo(clave: string, arbol: Arbol)

  /** The semestre code stored for a key: its first four characters, a dash, its fifth. */
  function CodigoSemestre(clave: string): (r: string)
    requires |clave| >= 5
    ensures |r| == 6 && r[4] == '-'
  {
    clave[..4] + "-" + [clave[4]]
  }

  /** Two five-character keys with the same code are the same key. */
  lemma CodigoSemestreInyectivo(a: string, b: string)
    requires |a| == 5 && |b| == 5 && CodigoSemestre(a) == CodigoSemestre(b)
    ensures a == b
  {
    assert a == CodigoSemestre(a)[..4] + [CodigoSemestre(a)[5]];
    assert b == CodigoSemestre(b)[..4] + [CodigoSemestre(b)[5]];
  }

  /** The key of the current semester, for a four-digit year, becomes "year-half". */
  lemma CodigoDelSemestreActual(anio: nat, mes: int)
    requires 1000 <= anio <= 9999
    ensures var clave := SedonaMenu.DeterminarSemestreActual(anio, mes);
            |clave| == 5 && CodigoSemestre(clave) == NatToString(anio) + "-" + [SedonaMenu.Semestre(mes)]
  {
    SedonaMenu.SemestreCincoCaracteres(anio, mes);
    var clave := SedonaMenu.DeterminarSemestreActual(anio, mes);
    assert clave[..4] == NatToString(anio);
  }

  /** The state stays valid and grows. */
  predicate Crece(a: Progreso, b: Progreso) {
    ProgresoValido(b) && Avanza(a, b)
  }

  lemma CreceTransitivo(a: Progreso, b: Progreso, c: Progreso)
    ensures Crece(a, b) && Crece(b, c) ==> Crece(a, c)
  {
    if Crece(a, b) && Crece(b, c) {
      AvanzaTransitiva(a, b, c);
    }
  }

  /** A semester step followed by steps inside it. */
  lemma CreceYPaso(a: Progreso, b: Progreso, c: Progreso)
    ensures Crece(a, b) && Paso(b, c) ==> Crece(a, c) && c.bd.campus == b.bd.campus
  {
    if Crece(a, b) && Paso(b, c) {
      AvanzaTransitiva(a, b, c);
    }
  }

  function ConSemestre(c: Progreso, fila: (nat, string)): Progreso {
    c.(bd := c.bd.(semestres := c.bd.semestres[c.bd.proximo := fila], proximo := c.bd.proximo + 1))
  }

  /** Inserting a semestre row with a new (campus, code) keeps the constraints. */
  lemma AltaSemestre(c: Progreso, fila: (nat, string))
    requires ProgresoValido(c) && forall s :: s in c.bd.semestres ==> c.bd.semestres[s] != fila
    ensures Crece(c, ConSemestre(c, fila)) && ConSemestre(c, fila).bd.campus == c.bd.campus
  {
    var bd := ConSemestre(c, fila).bd;
    assert Referencias(bd) by {
      assert bd.asignaturas == c.bd.asignaturas && bd.paralelos == c.bd.paralelos;
    }
  }

  /** A semestre row of an existing campus keeps every semestre inside a campus. */
  lemma AltaSemestreEnCampus(bd: Bdd, fila: (nat, string))
    ensures SemestresEnCampus(bd) && fila.0 in bd.campus ==>
              SemestresEnCampus(bd.(semestres := bd.semestres[bd.proximo := fila], proximo := bd.proximo + 1))
  {
  }

  /** SELECT the semestre with this campus and code, or INSERT it. */
  method BuscarOCrearSemestre(c0: Progreso, cid: nat, codigo: string) returns (c: Progreso, sid: nat)
    requires ProgresoValido(c0)
    ensures Crece(c0, c) && c.bd.campus == c0.bd.campus && c.vinculado == c0.vinculado
    ensures sid in c.bd.semestres && c.bd.semestres[sid] == (cid, codigo)
    ensures sid in c0.bd.semestres ==> c == c0
    ensures sid !in c0.bd.semestres ==> c == ConSemestre(c0, (cid, codigo)) && forall s :: s in c0.bd.semestres ==> c0.bd.semestres[s] != (cid, codigo)
    ensures SemestresEnCampus(c0.bd) && cid in c0.bd.campus ==> SemestresEnCampus(c.bd)
  {
    if exists s :: s in c0.bd.semestres && c0.bd.semestres[s] == (cid, codigo) {
      sid :| sid in c0.bd.semestres && c0.bd.semestres[sid] == (cid, codigo);
      c := c0;
    } else {
      sid := c0.bd.proximo;
      AltaSemestre(c0, (cid, codigo));
      AltaSemestreEnCampus(c0.bd, (cid, codigo));
      c := ConSemestre(c0, (cid, codigo));
    }
  }

  /**
   * Processing subjects in order from binding state v: does some subject
   * have no sections (IndexError) or some section a NameError?
   */
  function FallaRamos(v: bool, ramos: map<Option<string>, seq<Seccion>>, claves: seq<Option<string>>): bool
    requires forall i :: 0 <= i < |claves| ==> claves[i] in ramos
    decreases claves
  {
    if claves == [] then false
    else
      var secs := ramos[claves[0]];
      secs == [] || FallaSecciones(v, secs) || FallaRamos(LigadoTras(v, secs), ramos, claves[1..])
  }

  /** Whether profesor_id is bound after processing the subjects in order. */
  function LigadoRamos(v: bool, ramos: map<Option<string>, seq<Seccion>>, claves: seq<Option<string>>): bool
    requires forall i :: 0 <= i < |claves| ==> claves[i] in ramos
    decreases claves
  {
    if claves == [] then v else LigadoRamos(LigadoTras(v, ramos[claves[0]]), ramos, claves[1..])
  }

  /** All sections of the subjects, subject by subject. */
  function SeccionesDe(ramos: map<Option<string>, seq<Seccion>>, claves: seq<Option<string>>): seq<Seccion>
    requires forall i :: 0 <= i < |claves| ==> claves[i] in ramos
    decreases claves
  {
    if claves == [] then [] else ramos[claves[0]] + SeccionesDe(ramos, claves[1..])
  }

  /**
   * The subject-by-subject failure is the section-level failure over all
   * sections at once, or a subject without sections.
   */
  lemma {:induction false} FallaRamosPlana(v: bool, ramos: map<Option<string>, seq<Seccion>>, claves: seq<Option<string>>)
    requires forall i :: 0 <= i < |claves| ==> claves[i] in ramos
    ensures FallaRamos(v, ramos, claves) <==>
              (exists i :: 0 <= i < |claves| && ramos[claves[i]] == []) || FallaSecciones(v, SeccionesDe(ramos, claves))
    ensures LigadoRamos(v, ramos, claves) == LigadoTras(v, SeccionesDe(ramos, claves))
    decreases claves
  {
    if claves != [] {
      var secs := ramos[claves[0]];
      var resto := claves[1..];
      FallaRamosPlana(LigadoTras(v, secs), ramos, resto);
      FallaConcat(v, secs, SeccionesDe(ramos, resto));
      if exists i :: 0 <= i < |resto| && ramos[resto[i]] == [] {
        var i :| 0 <= i < |resto| && ramos[resto[i]] == [];
        assert claves[i + 1] == resto[i];
      }
      if exists i :: 0 <= i < |claves| && ramos[claves[i]] == [] {
        var i :| 0 <= i < |claves| && ramos[claves[i]] == [];
        if i > 0 {
          assert resto[i - 1] == claves[i];
        }
      }
    }
  }

  /** Subject `codigo` of semester sid exists and has a paralelo row for every section. */
  predicate AsignaturaImportada(bd: Bdd, sid: nat, codigo: Option<string>, secs: seq<Seccion>) {
    exists aid :: aid in bd.asignaturas && bd.asignaturas[aid].semestre == sid && bd.asignaturas[aid].codigo == codigo
                  && forall j :: 0 <= j < |secs| ==> TieneParalelo(bd, aid, secs[j].paralelo)
  }

  lemma AsignaturaImportadaPersiste(a: Bdd, b: Bdd, sid: nat, codigo: Option<string>, secs: seq<Seccion>)
    requires Extiende(a, b) && AsignaturaImportada(a, sid, codigo, secs)
    ensures AsignaturaImportada(b, sid, codigo, secs)
  {
    var aid :| aid in a.asignaturas && a.asignaturas[aid].semestre == sid && a.asignaturas[aid].codigo == codigo
               && forall j :: 0 <= j < |secs| ==> TieneParalelo(a, aid, secs[j].paralelo);
    forall j | 0 <= j < |secs|
      ensures TieneParalelo(b, aid, secs[j].paralelo)
    {
      TieneParaleloPersiste(a, b, aid, secs[j].paralelo);
    }
  }

  /** Every subject of claves has its row in semester sid, with a paralelo row per section. */
  predicate AsignaturasImportadas(bd: Bdd, sid: nat, ramos: map<Option<string>, seq<Seccion>>, claves: seq<Option<string>>) {
    forall k :: 0 <= k < |claves| ==> claves[k] in ramos && AsignaturaImportada(bd, sid, claves[k], ramos[claves[k]])
  }

  lemma AsignaturasImportadasPersisten(a: Bdd, b: Bdd, sid: nat, ramos: map<Option<string>, seq<Seccion>>, claves: seq<Option<string>>)
    ensures Extiende(a, b) && AsignaturasImportadas(a, sid, ramos, claves) ==> AsignaturasImportadas(b, sid, ramos, claves)
  {
    if Extiende(a, b) && AsignaturasImportadas(a, sid, ramos, claves) {
      forall k | 0 <= k < |claves|
        ensures AsignaturaImportada(b, sid, claves[k], ramos[claves[k]])
      {
        AsignaturaImportadaPersiste(a, b, sid, claves[k], ramos[claves[k]]);
      }
    }
  }

  lemma AsignaturasImportadasMas(bd: Bdd, sid: nat, ramos: map<Option<string>, seq<Seccion>>, claves: seq<Option<string>>, i: nat)
    ensures i < |claves| && claves[i] in ramos && AsignaturasImportadas(bd, sid, ramos, claves[..i])
            && AsignaturaImportada(bd, sid, claves[i], ramos[claves[i]])
            ==> AsignaturasImportadas(bd, sid, ramos, claves[..i + 1])
  {
    if i < |claves| && claves[i] in ramos && AsignaturasImportadas(bd, sid, ramos, claves[..i])
       && AsignaturaImportada(bd, sid, claves[i], ramos[claves[i]]) {
      var q := claves[..i + 1];
      forall k | 0 <= k < |q|
        ensures q[k] in ramos && AsignaturaImportada(bd, sid, q[k], ramos[q[k]])
      {
        if k < i {
          assert q[k] == claves[..i][k];
        }
      }
    }
  }

  /** A step inside a semester that hands out subject ids only from the counter. */
  predicate Ampliado(a: Progreso, b: Progreso) {
    Paso(a, b) && AsignaturasNuevas(a.bd, b.bd)
  }

  lemma AmpliadoTransitivo(a: Progreso, b: Progreso, c: Progreso)
    ensures Ampliado(a, b) && Ampliado(b, c) ==> Ampliado(a, c)
  {
    if Ampliado(a, b) && Ampliado(b, c) {
      PasoTransitivo(a, b, c);
      AsignaturasNuevasTransitiva(a.bd, b.bd, c.bd);
    }
  }

  /** The loop over the subjects of one semester. */
  method ProcesarRamos(c0: Progreso, sid: nat, cache0: map<Option<string>, nat>, ramos: map<Option<string>, seq<Seccion>>, claves: seq<Option<string>>)
    returns (ok: bool, c: Progreso)
    requires ProgresoValido(c0) && sid in c0.bd.semestres && CacheAsignaturas(c0.bd.asignaturas, sid, cache0)
    requires forall i :: 0 <= i < |claves| ==> claves[i] in ramos
    ensures Ampliado(c0, c)
    ensures ok <==> !FallaRamos(c0.vinculado, ramos, claves)
    ensures ok ==> c.vinculado == LigadoRamos(c0.vinculado, ramos, claves)
    ensures ok ==> AsignaturasImportadas(c.bd, sid, ramos, claves)
  {
    c := c0;
    var cache := cache0;
    for i := 0 to |claves|
      invariant Ampliado(c0, c) && CacheAsignaturas(c.bd.asignaturas, sid, cache)
      invariant FallaRamos(c0.vinculado, ramos, claves) == FallaRamos(c.vinculado, ramos, claves[i..])
      invariant LigadoRamos(c0.vinculado, ramos, claves) == LigadoRamos(c.vinculado, ramos, claves[i..])
      invariant AsignaturasImportadas(c.bd, sid, ramos, claves[..i])
    {
      var k := claves[i];
      assert claves[i..][0] == k && claves[i..][1..] == claves[i + 1..];
      var oka, c2, cache2 := ProcesarAsignatura(c, sid, cache, k, ramos[k]);
      AmpliadoTransitivo(c0, c, c2);
      if !oka {
        return false, c2;
      }
      AsignaturasImportadasPersisten(c.bd, c2.bd, sid, ramos, claves[..i]);
      assert AsignaturaImportada(c2.bd, sid, k, ramos[k]) by {
        assert c2.bd.asignaturas[cache2[k]].codigo == k;
      }
      AsignaturasImportadasMas(c2.bd, sid, ramos, claves, i);
      c, cache := c2, cache2;
    }
    assert claves[..|claves|] == claves;
    ok := true;
  }

  /** semestre.campus_id names an existing campus. */
  predicate SemestresEnCampus(bd: Bdd) {
    forall s :: s in bd.semestres ==> bd.semestres[s].0 in bd.campus
  }

  lemma SemestresEnCampusIgual(a: Bdd, b: Bdd)
    ensures a.campus == b.campus && a.semestres == b.semestres && SemestresEnCampus(a) ==> SemestresEnCampus(b)
  {
  }

  /**
   * The period was imported under campus cid: its key gave a semestre row
   * of that campus, and each of its subjects has a row there with a
   * paralelo row per section.
   */
  predicate PeriodoImportado(bd: Bdd, cid: nat, p: Periodo) {
    |p.clave| >= 5
    && exists sid :: sid in bd.semestres && bd.semestres[sid] == (cid, CodigoSemestre(p.clave))
                     && AsignaturasImportadas(bd, sid, p.arbol.ramos, p.arbol.orden)
  }

  lemma PeriodoImportadoPersiste(a: Bdd, b: Bdd, cid: nat, p: Periodo)
    requires Extiende(a, b) && PeriodoImportado(a, cid, p)
    ensures PeriodoImportado(b, cid, p)
  {
    var sid :| sid in a.semestres && a.semestres[sid] == (cid, CodigoSemestre(p.clave))
               && AsignaturasImportadas(a, sid, p.arbol.ramos, p.arbol.orden);
    AsignaturasImportadasPersisten(a, b, sid, p.arbol.ramos, p.arbol.orden);
  }

  /** Every period of ps was imported under campus cid. */
  predicate PeriodosImportados(bd: Bdd, cid: nat, ps: seq<Periodo>) {
    forall k :: 0 <= k < |ps| ==> PeriodoImportado(bd, cid, ps[k])
  }

  lemma PeriodosImportadosPersisten(a: Bdd, b: Bdd, cid: nat, ps: seq<Periodo>)
    ensures Extiende(a, b) && PeriodosImportados(a, cid, ps) ==> PeriodosImportados(b, cid, ps)
  {
    if Extiende(a, b) && PeriodosImportados(a, cid, ps) {
      forall k | 0 <= k < |ps|
        ensures PeriodoImportado(b, cid, ps[k])
      {
        PeriodoImportadoPersiste(a, b, cid, ps[k]);
      }
    }
  }

  lemma PeriodosImportadosMas(bd: Bdd, cid: nat, ps: seq<Periodo>, i: nat)
    ensures i < |ps| && PeriodosImportados(bd, cid, ps[..i]) && PeriodoImportado(bd, cid, ps[i]) ==> PeriodosImportados(bd, cid, ps[..i + 1])
  {
    if i < |ps| && PeriodosImportados(bd, cid, ps[..i]) && PeriodoImportado(bd, cid, ps[i]) {
      var q := ps[..i + 1];
      forall k | 0 <= k < |q|
        ensures PeriodoImportado(bd, cid, q[k])
      {
        if k < i {
          assert q[k] == ps[..i][k];
        }
      }
    }
  }

  /**
   * Growth across whole semesters: the state stays valid and grows, no
   * campus is added, every semestre stays inside a campus, and new subject
   * ids come from the counter.
   */
  predicate Crecido(a: Progreso, b: Progreso) {
    Crece(a, b) && b.bd.campus == a.bd.campus && SemestresEnCampus(b.bd) && AsignaturasNuevas(a.bd, b.bd)
  }

  lemma CrecidoTransitivo(a: Progreso, b: Progreso, c: Progreso)
    ensures Crecido(a, b) && Crecido(b, c) ==> Crecido(a, c)
  {
    if Crecido(a, b) && Crecido(b, c) {
      CreceTransitivo(a, b, c);
      AsignaturasNuevasTransitiva(a.bd, b.bd, c.bd);
    }
  }

  /**
   * One period of the campus: the key is turned into the semestre code
   * (a key shorter than five characters fails at semestre_key[4]), the
   * semestre is looked up or inserted, its subjects are cached, and its
   * subjects are processed in the tree's order.
   */
  method ProcesarSemestre(c0: Progreso, cid: nat, p: Periodo) returns (ok: bool, c: Progreso)
    requires ProgresoValido(c0) && SemestresEnCampus(c0.bd) && cid in c0.bd.campus && ArbolValido(p.arbol)
    ensures Crecido(c0, c)
    ensures ok <==> |p.clave| >= 5 && !FallaRamos(c0.vinculado, p.arbol.ramos, p.arbol.orden)
    ensures ok ==> c.vinculado == LigadoRamos(c0.vinculado, p.arbol.ramos, p.arbol.orden) && PeriodoImportado(c.bd, cid, p)
  {
    if |p.clave| < 5 {
      return false, c0;
    }
    var c1, sid := BuscarOCrearSemestre(c0, cid, CodigoSemestre(p.clave));
    var cache := CargarCacheAsignaturas(c1.bd.asignaturas, sid);
    ok, c := ProcesarRamos(c1, sid, cache, p.arbol.ramos, p.arbol.orden);
    CreceYPaso(c0, c1, c);
    AsignaturasNuevasTransitiva(c0.bd, c1.bd, c.bd);
    SemestresEnCampusIgual(c1.bd, c.bd);
    if ok {
      PeriodoImportadoIntro(c.bd, cid, sid, p);
    }
  }

  lemma PeriodoImportadoIntro(bd: Bdd, cid: nat, sid: nat, p: Periodo)
    requires |p.clave| >= 5 && sid in bd.semestres && bd.semestres[sid] == (cid, CodigoSemestre(p.clave))
    requires AsignaturasImportadas(bd, sid, p.arbol.ramos, p.arbol.orden)
    ensures PeriodoImportado(bd, cid, p)
  {
  }

  // ---------------------------------------------------------------------------
  // Campus

  /** The scraped data of one campus: its name and its periods in order. */
  datatype CampusDatos = CampusDatos(nombre: string, periodos: seq<Periodo>)

  predicate PeriodosValidos(ps: seq<Periodo>) {
    forall i :: 0 <= i < |ps| ==> ArbolValido(ps[i].arbol)
  }

  /**
   * Processing the periods in order from binding state v: does some key
   * have fewer than five characters, or some period fail?
   */
  function FallaPeriodos(v: bool, ps: seq<Periodo>): bool
    requires PeriodosValidos(ps)
    decreases ps
  {
    if ps == [] then false
    else
      var a := ps[0].arbol;
      |ps[0].clave| < 5 || FallaRamos(v, a.ramos, a.orden) || FallaPeriodos(LigadoRamos(v, a.ramos, a.orden), ps[1..])
  }

  /** The database state the import starts from and leaves behind. */
  predicate BddValida(bd: Bdd) {
    Valida(bd) && SemestresEnCampus(bd) && ProfesoresUnicos(bd.profesores) && Bajo(bd.profesores, bd.proximo)
  }

  lemma BddValidaDesdeProgreso(c: Progreso)
    ensures ProgresoValido(c) && SemestresEnCampus(c.bd) ==> BddValida(c.bd)
  {
    if ProgresoValido(c) {
      CacheExactaUnicos(c.bd.profesores, c.profesores);
    }
  }

  function ConCampus(bd: Bdd, nombre: string): Bdd {
    bd.(campus := bd.campus[bd.proximo := nombre], proximo := bd.proximo + 1)
  }

  /** Inserting a campus with a new name keeps the constraints. */
  lemma AltaCampus(bd: Bdd, nombre: string)
    requires BddValida(bd) && forall c :: c in bd.campus ==> bd.campus[c] != nombre
    ensures BddValida(ConCampus(bd, nombre)) && Extiende(bd, ConCampus(bd, nombre))
  {
    var r := ConCampus(bd, nombre);
    assert ParalelosUnicos(r.paralelos) by {
      assert r.paralelos == bd.paralelos;
    }
  }

  /** SELECT the campus with this name, or INSERT it. */
  method BuscarOCrearCampus(bd0: Bdd, nombre: string) returns (bd: Bdd, cid: nat)
    requires BddValida(bd0)
    ensures BddValida(bd) && Extiende(bd0, bd)
    ensures cid in bd.campus && bd.campus[cid] == nombre
    ensures bd.asignaturas == bd0.asignaturas && bd.semestres == bd0.semestres
    ensures forall c :: c in bd0.campus && bd0.campus[c] == nombre ==> c == cid
    ensures cid in bd0.campus ==> bd == bd0
    ensures cid !in bd0.campus ==> bd == ConCampus(bd0, nombre) && forall c :: c in bd0.campus ==> bd0.campus[c] != nombre
  {
    if exists c :: c in bd0.campus && bd0.campus[c] == nombre {
      cid :| cid in bd0.campus && bd0.campus[cid] == nombre;
      bd := bd0;
    } else {
      cid := bd0.proximo;
      AltaCampus(bd0, nombre);
      bd := ConCampus(bd0, nombre);
    }
  }

  /** Every period was imported under the campus with this name. */
  predicate Importados(bd: Bdd, datos: CampusDatos) {
    exists cid :: cid in bd.campus && bd.campus[cid] == datos.nombre && PeriodosImportados(bd, cid, datos.periodos)
  }

  /**
   * insertarJsonHaciaBDD: the campus is looked up or inserted, the
   * professor cache is loaded, and the periods are processed in order with
   * profesor_id unbound at the start.  It completes exactly when no period
   * fails, and then every period is in the tables.
   */
  method InsertarJsonHaciaBDD(bd0: Bdd, datos: CampusDatos) returns (ok: bool, bd: Bdd)
    requires BddValida(bd0) && PeriodosValidos(datos.periodos)
    ensures BddValida(bd) && Extiende(bd0, bd) && AsignaturasNuevas(bd0, bd)
    ensures ok <==> !FallaPeriodos(false, datos.periodos)
    ensures ok ==> Importados(bd, datos)
  {
    var bd1, cid := BuscarOCrearCampus(bd0, datos.nombre);
    var cache := CargarCacheProfesores(bd1.profesores);
    var c0 := Progreso(bd1, cache, false);
    var c;
    ok, c := ProcesarPeriodos(c0, cid, datos.periodos);
    CierreImportacion(bd0, c0, c);
    if ok {
      ImportadosIntro(c.bd, cid, datos);
    }
    bd := c.bd;
  }

  /** The loop over the periods of the campus, stopping at the first that fails. */
  method ProcesarPeriodos(c0: Progreso, cid: nat, ps: seq<Periodo>) returns (ok: bool, c: Progreso)
    requires ProgresoValido(c0) && SemestresEnCampus(c0.bd) && cid in c0.bd.campus && PeriodosValidos(ps)
    ensures Crecido(c0, c)
    ensures ok <==> !FallaPeriodos(c0.vinculado, ps)
    ensures ok ==> PeriodosImportados(c.bd, cid, ps)
  {
    c := c0;
    for i := 0 to |ps|
      invariant Crecido(c0, c)
      invariant FallaPeriodos(c0.vinculado, ps) == FallaPeriodos(c.vinculado, ps[i..])
      invariant PeriodosImportados(c.bd, cid, ps[..i])
    {
      assert ps[i..][0] == ps[i] && ps[i..][1..] == ps[i + 1..];
      var okp, c2 := ProcesarSemestre(c, cid, ps[i]);
      CrecidoTransitivo(c0, c, c2);
      if !okp {
        return false, c2;
      }
      PeriodosImportadosPersisten(c.bd, c2.bd, cid, ps[..i]);
      PeriodosImportadosMas(c2.bd, cid, ps, i);
      c := c2;
    }
    assert ps[..|ps|] == ps;
    ok := true;
  }

  /** What the loop leaves is a valid extension of the starting tables. */
  lemma CierreImportacion(bd0: Bdd, c0: Progreso, c: Progreso)
    ensures BddValida(bd0) && Extiende(bd0, c0.bd) && c0.bd.asignaturas == bd0.asignaturas
            && Crecido(c0, c)
            ==> BddValida(c.bd) && Extiende(bd0, c.bd) && AsignaturasNuevas(bd0, c.bd)
  {
    if BddValida(bd0) && Extiende(bd0, c0.bd) && c0.bd.asignaturas == bd0.asignaturas
       && Crecido(c0, c) {
      BddValidaDesdeProgreso(c);
      ExtiendeTransitiva(bd0, c0.bd, c.bd);
    }
  }

  lemma ImportadosIntro(bd: Bdd, cid: nat, datos: CampusDatos)
    requires cid in bd.campus && bd.campus[cid] == datos.nombre
    requires PeriodosImportados(bd, cid, datos.periodos)
    ensures Importados(bd, datos)
  {
  }
}
