/**
 * prepararConexionBDD: the import of the first campus of the scraped data
 * as one transaction, after deleting the stored copy of its first period's
 * semester.  The delete follows the foreign keys of the schema: removing a
 * semestre row removes its asignatura rows, their paralelo rows, and the
 * paralelo_profesor and horario rows of those paralelos.
 */
module PiedmontConexion {
  import opened Wrappers
  import opened PiedmontImport

  // ---------------------------------------------------------------------------
  // Cascading delete of a semester

  /** Paralelo p hangs from a subject of semester sid. */
  predicate DelSemestre(bd: Bdd, sid: nat, p: nat) {
    p in bd.paralelos && bd.paralelos[p].asignatura in bd.asignaturas
    && bd.asignaturas[bd.paralelos[p].asignatura].semestre == sid
  }

  /** The horario rows that survive the delete, in their order. */
  function HorariosRestantes(h: seq<FilaHorario>, bd: Bdd, sid: nat): (r: seq<FilaHorario>)
    ensures forall x :: x in r <==> x in h && !DelSemestre(bd, sid, x.paralelo)
  {
    if h == [] then []
    else (if DelSemestre(bd, sid, h[0].paralelo) then [] else [h[0]]) + HorariosRestantes(h[1..], bd, sid)
  }

  /** DELETE FROM semestre WHERE id = sid, with its cascade. */
  function BorrarSemestre(bd: Bdd, sid: nat): (r: Bdd)
    ensures sid !in r.semestres && r.campus == bd.campus && r.profesores == bd.profesores && r.proximo == bd.proximo
    ensures forall a :: a in r.asignaturas ==> r.asignaturas[a].semestre != sid
    ensures forall p :: p in r.paralelos ==> !DelSemestre(bd, sid, p)
  {
    bd.(semestres := bd.semestres - {sid},
        asignaturas := (map a | a in bd.asignaturas && bd.asignaturas[a].semestre != sid :: bd.asignaturas[a]),
        paralelos := (map p | p in bd.paralelos && !DelSemestre(bd, sid, p) :: bd.paralelos[p]),
        dictados := (set d | d in bd.dictados && !DelSemestre(bd, sid, d.0)),
        horarios := HorariosRestantes(bd.horarios, bd, sid))
  }

  /** The delete keeps the constraints and leaves campus, profesor and the id counter alone. */
  lemma BorradoEnCascada(bd: Bdd, sid: nat)
    requires BddValida(bd)
    ensures var r := BorrarSemestre(bd, sid);
            BddValida(r) && r.campus == bd.campus && r.profesores == bd.profesores && r.proximo == bd.proximo
  {
    var r := BorrarSemestre(bd, sid);
    assert Referencias(r) by {
      forall p | p in r.paralelos
        ensures r.paralelos[p].asignatura in r.asignaturas
      {
        assert bd.paralelos[p].asignatura in bd.asignaturas;
      }
    }
    assert IdsValidos(r) && Unicos(r) && SemestresEnCampus(r);
  }

  /**
   * The delete removes exactly the semester and what hangs from it: every
   * other row stays as it was, and no subject, section, teacher link or
   * schedule row of the semester is left.
   */
  lemma BorradoExacto(bd: Bdd, sid: nat)
    ensures var r := BorrarSemestre(bd, sid);
            sid !in r.semestres && forall s :: s in bd.semestres && s != sid ==> s in r.semestres && r.semestres[s] == bd.semestres[s]
    ensures var r := BorrarSemestre(bd, sid);
            forall a :: a in bd.asignaturas ==>
              (a in r.asignaturas <==> bd.asignaturas[a].semestre != sid) && (a in r.asignaturas ==> r.asignaturas[a] == bd.asignaturas[a])
    ensures var r := BorrarSemestre(bd, sid);
            forall p :: p in bd.paralelos ==>
              (p in r.paralelos <==> !DelSemestre(bd, sid, p)) && (p in r.paralelos ==> r.paralelos[p] == bd.paralelos[p])
    ensures var r := BorrarSemestre(bd, sid);
            forall d :: d in r.dictados <==> d in bd.dictados && !DelSemestre(bd, sid, d.0)
    ensures var r := BorrarSemestre(bd, sid);
            forall x :: x in r.horarios <==> x in bd.horarios && !DelSemestre(bd, sid, x.paralelo)
    ensures var r := BorrarSemestre(bd, sid);
            r.asignaturas.Keys <= bd.asignaturas.Keys && r.paralelos.Keys <= bd.paralelos.Keys
  {
  }

  // ---------------------------------------------------------------------------
  // The transaction

  /**
   * How prepararConexionBDD ends: committed with the new tables, False
   * without a connection (the mysql Error is caught), False on empty data,
   * or an exception other than a database error (StopIteration on a campus
   * without periods, IndexError on a short key or a subject without
   * sections, NameError on an unbound profesor_id) that leaves the
   * uncommitted transaction to be discarded.
   */
  datatype Importacion = Comprometida(bd: Bdd) | SinConexion | SinDatos | Caida

  /** Whether importing this campus ends in an uncaught exception. */
  predicate Cae(datos: CampusDatos)
    requires PeriodosValidos(datos.periodos)
  {
    datos.periodos == [] || |datos.periodos[0].clave| < 5 || FallaPeriodos(false, datos.periodos)
  }

  /** s is the semestre with code `codigo` of the campus named `nombre`. */
  predicate EsSemestre(bd: Bdd, nombre: string, codigo: string, s: nat) {
    s in bd.semestres && bd.semestres[s].1 == codigo && bd.semestres[s].0 in bd.campus && bd.campus[bd.semestres[s].0] == nombre
  }

  /**
   * bd replaces that one semester of bd0: every other semestre and subject
   * row is kept as it was, the old subjects of the semester are gone, and
   * the semester's subjects in bd are all new rows, never a merge of the old
   * and the new scrape.
   */
  predicate Reemplaza(bd0: Bdd, bd: Bdd, nombre: string, codigo: string) {
    (forall s :: s in bd0.semestres && !EsSemestre(bd0, nombre, codigo, s) ==> s in bd.semestres && bd.semestres[s] == bd0.semestres[s])
    && (forall a :: a in bd0.asignaturas && !EsSemestre(bd0, nombre, codigo, bd0.asignaturas[a].semestre) ==>
          a in bd.asignaturas && bd.asignaturas[a] == bd0.asignaturas[a])
    && (forall a :: a in bd0.asignaturas && EsSemestre(bd0, nombre, codigo, bd0.asignaturas[a].semestre) ==> a !in bd.asignaturas)
    && (forall a :: a in bd.asignaturas && EsSemestre(bd, nombre, codigo, bd.asignaturas[a].semestre) ==> a !in bd0.asignaturas)
  }

  /** The tables right before insertarJsonHaciaBDD hold no semestre (cid, codigo). */
  predicate SinSemestre(bd: Bdd, cid: nat, codigo: string) {
    forall s :: s in bd.semestres ==> bd.semestres[s] != (cid, codigo)
  }

  /**
   * prepararConexionBDD on the scraped data `global` (campus in insertion
   * order), with the connection's outcome as a parameter.
   */
  method PrepararConexionBDD(conectado: bool, global: seq<CampusDatos>, bd0: Bdd) returns (r: Importacion)
    requires BddValida(bd0) && forall i :: 0 <= i < |global| ==> PeriodosValidos(global[i].periodos)
    ensures r.SinConexion? <==> !conectado
    ensures r.SinDatos? <==> conectado && global == []
    ensures r.Caida? <==> conectado && global != [] && Cae(global[0])
    ensures r.Comprometida? ==> BddValida(r.bd) && Importados(r.bd, global[0])
    ensures r.Comprometida? ==> Reemplaza(bd0, r.bd, global[0].nombre, CodigoSemestre(global[0].periodos[0].clave))
  {
    if !conectado {
      return SinConexion;
    }
    if global == [] {
      return SinDatos;
    }
    var datos := global[0];
    if datos.periodos == [] {
      return Caida;
    }
    var clave := datos.periodos[0].clave;
    if |clave| < 5 {
      return Caida;
    }
    var codigo := CodigoSemestre(clave);
    var bd1, cid := BuscarOCrearCampus(bd0, datos.nombre);
    var bd2 := bd1;
    if exists s :: s in bd1.semestres && bd1.semestres[s] == (cid, codigo) {
      var sid :| sid in bd1.semestres && bd1.semestres[sid] == (cid, codigo);
      BorradoEnCascada(bd1, sid);
      BorradoExacto(bd1, sid);
      bd2 := BorrarSemestre(bd1, sid);
      SoloUnSemestre(bd1, sid, cid, codigo);
    }
    var ok, bd := InsertarJsonHaciaBDD(bd2, datos);
    if !ok {
      return Caida;
    }
    ReemplazoCompleto(bd0, bd1, cid, bd2, bd, datos.nombre, codigo);
    return Comprometida(bd);
  }

  /** Deleting the one semestre (cid, codigo) leaves none. */
  lemma SoloUnSemestre(bd: Bdd, sid: nat, cid: nat, codigo: string)
    requires BddValida(bd) && sid in bd.semestres && bd.semestres[sid] == (cid, codigo)
    ensures SinSemestre(BorrarSemestre(bd, sid), cid, codigo)
  {
  }

  /** After the campus step, the semester named by (nombre, codigo) is the row (cid, codigo). */
  lemma Objetivo(bd0: Bdd, bd1: Bdd, cid: nat, nombre: string, codigo: string, s: nat)
    requires BddValida(bd0) && Extiende(bd0, bd1) && bd1.semestres == bd0.semestres
    requires cid in bd1.campus && bd1.campus[cid] == nombre
    requires forall c :: c in bd0.campus && bd0.campus[c] == nombre ==> c == cid
    requires s in bd0.semestres
    ensures EsSemestre(bd0, nombre, codigo, s) <==> bd1.semestres[s] == (cid, codigo)
  {
    assert bd0.semestres[s].0 in bd0.campus;
  }

  /** What the optional delete keeps and removes, in terms of the semestre row (cid, codigo). */
  lemma Borrado(bd1: Bdd, cid: nat, codigo: string, bd2: Bdd)
    requires BddValida(bd1)
    requires bd2 == bd1 || exists sid :: sid in bd1.semestres && bd1.semestres[sid] == (cid, codigo) && bd2 == BorrarSemestre(bd1, sid)
    requires bd2 == bd1 ==> SinSemestre(bd1, cid, codigo)
    ensures forall s :: s in bd1.semestres && bd1.semestres[s] != (cid, codigo) ==> s in bd2.semestres && bd2.semestres[s] == bd1.semestres[s]
    ensures forall a :: a in bd1.asignaturas ==>
              (a in bd2.asignaturas <==> bd1.semestres[bd1.asignaturas[a].semestre] != (cid, codigo))
              && (a in bd2.asignaturas ==> bd2.asignaturas[a] == bd1.asignaturas[a])
  {
    if bd2 != bd1 {
      var sid :| sid in bd1.semestres && bd1.semestres[sid] == (cid, codigo) && bd2 == BorrarSemestre(bd1, sid);
      BorradoExacto(bd1, sid);
    }
  }

  /** The four parts of Reemplaza from the three steps: campus, delete, insert. */
  lemma ReemplazoCompleto(bd0: Bdd, bd1: Bdd, cid: nat, bd2: Bdd, bd: Bdd, nombre: string, codigo: string)
    requires BddValida(bd0) && BddValida(bd1) && Extiende(bd0, bd1)
    requires bd1.asignaturas == bd0.asignaturas && bd1.semestres == bd0.semestres
    requires cid in bd1.campus && bd1.campus[cid] == nombre
    requires forall c :: c in bd0.campus && bd0.campus[c] == nombre ==> c == cid
    requires bd2 == bd1 || exists sid :: sid in bd1.semestres && bd1.semestres[sid] == (cid, codigo) && bd2 == BorrarSemestre(bd1, sid)
    requires BddValida(bd2) && SinSemestre(bd2, cid, codigo) && bd2.campus == bd1.campus && bd2.proximo == bd1.proximo
    requires bd2 == bd1 ==> SinSemestre(bd1, cid, codigo)
    requires BddValida(bd) && Extiende(bd2, bd) && AsignaturasNuevas(bd2, bd)
    ensures Reemplaza(bd0, bd, nombre, codigo)
  {
    Borrado(bd1, cid, codigo, bd2);
    Conservados(bd0, bd1, cid, bd2, bd, nombre, codigo);
    Descartados(bd0, bd1, cid, bd2, bd, nombre, codigo);
    SinMezcla(bd0, bd1, cid, bd2, bd, nombre, codigo);
  }

  /** Semestre and subject rows outside the replaced semester are kept. */
  lemma Conservados(bd0: Bdd, bd1: Bdd, cid: nat, bd2: Bdd, bd: Bdd, nombre: string, codigo: string)
    requires BddValida(bd0) && Extiende(bd0, bd1)
    requires bd1.asignaturas == bd0.asignaturas && bd1.semestres == bd0.semestres
    requires cid in bd1.campus && bd1.campus[cid] == nombre
    requires forall c :: c in bd0.campus && bd0.campus[c] == nombre ==> c == cid
    requires forall s :: s in bd1.semestres && bd1.semestres[s] != (cid, codigo) ==> s in bd2.semestres && bd2.semestres[s] == bd1.semestres[s]
    requires forall a :: a in bd1.asignaturas ==>
               (a in bd2.asignaturas <==> bd1.semestres[bd1.asignaturas[a].semestre] != (cid, codigo))
               && (a in bd2.asignaturas ==> bd2.asignaturas[a] == bd1.asignaturas[a])
    requires Extiende(bd2, bd)
    ensures forall s :: s in bd0.semestres && !EsSemestre(bd0, nombre, codigo, s) ==> s in bd.semestres && bd.semestres[s] == bd0.semestres[s]
    ensures forall a :: a in bd0.asignaturas && !EsSemestre(bd0, nombre, codigo, bd0.asignaturas[a].semestre) ==>
              a in bd.asignaturas && bd.asignaturas[a] == bd0.asignaturas[a]
  {
    forall s | s in bd0.semestres && !EsSemestre(bd0, nombre, codigo, s)
      ensures s in bd.semestres && bd.semestres[s] == bd0.semestres[s]
    {
      Objetivo(bd0, bd1, cid, nombre, codigo, s);
    }
    forall a | a in bd0.asignaturas && !EsSemestre(bd0, nombre, codigo, bd0.asignaturas[a].semestre)
      ensures a in bd.asignaturas && bd.asignaturas[a] == bd0.asignaturas[a]
    {
      Objetivo(bd0, bd1, cid, nombre, codigo, bd0.asignaturas[a].semestre);
    }
  }

  /** The old subject rows of the replaced semester are gone. */
  lemma Descartados(bd0: Bdd, bd1: Bdd, cid: nat, bd2: Bdd, bd: Bdd, nombre: string, codigo: string)
    requires BddValida(bd0) && Extiende(bd0, bd1)
    requires bd1.asignaturas == bd0.asignaturas && bd1.semestres == bd0.semestres
    requires cid in bd1.campus && bd1.campus[cid] == nombre
    requires forall c :: c in bd0.campus && bd0.campus[c] == nombre ==> c == cid
    requires forall a :: a in bd1.asignaturas ==>
               (a in bd2.asignaturas <==> bd1.semestres[bd1.asignaturas[a].semestre] != (cid, codigo))
    requires bd2.proximo == bd1.proximo && AsignaturasNuevas(bd2, bd)
    ensures forall a :: a in bd0.asignaturas && EsSemestre(bd0, nombre, codigo, bd0.asignaturas[a].semestre) ==> a !in bd.asignaturas
  {
    forall a | a in bd0.asignaturas && EsSemestre(bd0, nombre, codigo, bd0.asignaturas[a].semestre)
      ensures a !in bd.asignaturas
    {
      Objetivo(bd0, bd1, cid, nombre, codigo, bd0.asignaturas[a].semestre);
      assert a < bd0.proximo;
    }
  }

  /** Every subject row of the re-imported semester is new. */
  lemma SinMezcla(bd0: Bdd, bd1: Bdd, cid: nat, bd2: Bdd, bd: Bdd, nombre: string, codigo: string)
    requires BddValida(bd0) && Extiende(bd0, bd1) && BddValida(bd1)
    requires cid in bd1.campus && bd1.campus[cid] == nombre
    requires BddValida(bd2) && SinSemestre(bd2, cid, codigo) && bd2.campus == bd1.campus && bd2.proximo == bd1.proximo
    requires Extiende(bd2, bd) && AsignaturasNuevas(bd2, bd)
    ensures forall a :: a in bd.asignaturas && EsSemestre(bd, nombre, codigo, bd.asignaturas[a].semestre) ==> a !in bd0.asignaturas
  {
    forall a | a in bd.asignaturas && EsSemestre(bd, nombre, codigo, bd.asignaturas[a].semestre)
      ensures a !in bd0.asignaturas
    {
      if a in bd2.asignaturas {
        NoVuelve(bd1, cid, bd2, bd, nombre, codigo, a);
      }
    }
  }

  /** A subject row that survives the delete cannot belong to the re-imported semester. */
  lemma NoVuelve(bd1: Bdd, cid: nat, bd2: Bdd, bd: Bdd, nombre: string, codigo: string, a: nat)
    requires BddValida(bd1) && cid in bd1.campus && bd1.campus[cid] == nombre
    requires BddValida(bd2) && SinSemestre(bd2, cid, codigo) && bd2.campus == bd1.campus
    requires Extiende(bd2, bd) && a in bd2.asignaturas
    ensures !EsSemestre(bd, nombre, codigo, bd.asignaturas[a].semestre)
  {
    var s := bd2.asignaturas[a].semestre;
    assert s in bd2.semestres;
    var c := bd2.semestres[s].0;
    assert c in bd2.campus;
    if bd.campus[c] == nombre {
      assert c == cid;
    }
  }
}
