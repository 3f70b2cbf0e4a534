/**
 * The row walker of the interactive scraper (actualizarBaseDatos): the
 * course table is read row by row and folded into subject code -> list of
 * sections.  Rows whose code cell is empty are further sections of the
 * last subject seen.  The schedule popup of each row is a given function of
 * the row counter, and the outcome of each database save is another.
 */
module SedonaScraper {
  import opened Wrappers
  import opened Text
  import opened Schedule

  /** The last subject that had a code: carried to the rows below it. */
  datatype Ultima = Ultima(sigla: string, nombre: string, departamento: string)

  /**
   * The walker's state: the subjects in insertion order, the row counter,
   * the carried subject and whether the tree has been published into the
   * global database yet.
   */
  datatype Estado = Estado(
    ramos: map<string, seq<Seccion>>,
    orden: seq<string>,
    contador: nat,
    ultima: Option<Ultima>,
    publicado: bool)

  /** The order lists every key once, and the carried subject is a stored one. */
  predicate Valido(e: Estado) {
    SinRepetir(e.orden)
    && (forall k :: k in e.ramos ==> k in e.orden)
    && (forall i :: 0 <= i < |e.orden| ==> e.orden[i] in e.ramos)
    && (e.ultima.Some? ==> e.ultima.value.sigla in e.ramos)
  }

  const Inicial: Estado := Estado(map[], [], 0, None, false)

  /**
   * A data row with at least six cells: a new section under its own code, or
   * under the carried code when its code cell is empty.
   */
  function AgregarSeccion(e: Estado, c: seq<string>, detalle: Option<Extraccion>): (r: Option<Estado>)
    requires Valido(e) && |c| >= 6
    ensures r.Some? ==> Valido(r.value) && r.value.contador == e.contador && r.value.publicado == e.publicado
  {
    var sigla := Strip(c[0]);
    var nombre := Strip(c[1]);
    var departamento := Strip(c[2]);
    var paralelo := Strip(c[3]);
    var cupos := Strip(c[5]);
    if sigla != "" then
      match detalle
      case None => None
      case Some(x) =>
        var previas := if sigla in e.ramos then e.ramos[sigla] else [];
        var lista := previas + [Seccion(Some(nombre), Some(departamento), paralelo, [], cupos, [])];
        // the popup's result always goes to the subject's first section
        var lista2 := lista[0 := lista[0].(horario := x.horario, profesores := x.profesores)];
        var orden := if sigla in e.ramos then e.orden else e.orden + [sigla];
        Some(Estado(e.ramos[sigla := lista2], orden, e.contador, Some(Ultima(sigla, nombre, departamento)), e.publicado))
    else
      match e.ultima
      case None => None
      case Some(u) =>
        match detalle
        case None => None
        case Some(x) =>
          var lista := e.ramos[u.sigla] + [Seccion(Some(u.nombre), Some(u.departamento), paralelo, x.profesores, cupos, x.horario)];
          Some(e.(ramos := e.ramos[u.sigla := lista]))
  }

  datatype Paso = Sigue(e: Estado) | Corta(e: Estado) | Falla

  /**
   * One row of the loop: dividers are skipped without counting; any other
   * row is processed (when it has cells), the database is saved, the
   * counter advances and the walk stops once it reaches 3.
   */
  function PasoFila(e: Estado, fila: Fila, popups: nat -> Option<Popup>, guardar: nat -> bool): (p: Paso)
    requires Valido(e)
    ensures !p.Falla? ==> Valido(p.e)
    ensures !p.Falla? && fila.Celdas? ==> p.e.contador == e.contador + 1 && p.e.publicado
    ensures fila.Separador? ==> p == Sigue(e)
  {
    match fila
    case Separador => Sigue(e)
    case Celdas(c) =>
      if 0 < |c| < 6 then Falla
      else
        var r := if |c| == 0 then Some(e) else AgregarSeccion(e, c, Detalle(Sedona, popups, e.contador));
        if r.None? || !guardar(e.contador) then Falla
        else
          var e2 := r.value.(contador := e.contador + 1, publicado := true);
          if e2.contador == 3 then Corta(e2) else Sigue(e2)
  }

  /** The whole loop: None when the run returns False. */
  function Recorrer(e: Estado, filas: seq<Fila>, popups: nat -> Option<Popup>, guardar: nat -> bool): (r: Option<Estado>)
    requires Valido(e)
    ensures r.Some? ==> Valido(r.value)
    decreases |filas|
  {
    if filas == [] then Some(e)
    else
      match PasoFila(e, filas[0], popups, guardar)
      case Sigue(e2) => Recorrer(e2, filas[1..], popups, guardar)
      case Corta(e2) => Some(e2)
      case Falla => None
  }

  /**
   * A row with a code: the key is created when absent, a section with the
   * row's own name and department is appended, the popup's schedule and
   * professors land on the subject's FIRST section, and the row becomes
   * the carried subject.  Other subjects are untouched.
   */
  lemma FilaConSigla(e: Estado, c: seq<string>, detalle: Option<Extraccion>)
    requires Valido(e) && |c| >= 6 && Strip(c[0]) != ""
    ensures AgregarSeccion(e, c, detalle).None? <==> detalle.None?
    ensures AgregarSeccion(e, c, detalle).Some? ==>
              var e2 := AgregarSeccion(e, c, detalle).value;
              var sigla := Strip(c[0]);
              var n := if sigla in e.ramos then |e.ramos[sigla]| else 0;
              && sigla in e2.ramos && |e2.ramos[sigla]| == n + 1
              && e2.ramos[sigla][n].nombre == Some(Strip(c[1]))
              && e2.ramos[sigla][n].departamento == Some(Strip(c[2]))
              && e2.ramos[sigla][n].paralelo == Strip(c[3])
              && e2.ramos[sigla][n].cupos == Strip(c[5])
              && e2.ramos[sigla][0].horario == detalle.value.horario
              && e2.ramos[sigla][0].profesores == detalle.value.profesores
              && (n > 0 ==> e2.ramos[sigla][n].horario == [] && e2.ramos[sigla][1..n] == e.ramos[sigla][1..n])
              && e2.ultima == Some(Ultima(sigla, Strip(c[1]), Strip(c[2])))
              && (forall k :: k != sigla ==> (k in e2.ramos <==> k in e.ramos))
              && (forall k :: k != sigla && k in e.ramos ==> e2.ramos[k] == e.ramos[k])
  {
    var sigla := Strip(c[0]);
    if detalle.Some? {
      var x := detalle.value;
      var previas := if sigla in e.ramos then e.ramos[sigla] else [];
      var lista := previas + [Seccion(Some(Strip(c[1])), Some(Strip(c[2])), Strip(c[3]), [], Strip(c[5]), [])];
      var lista2 := lista[0 := lista[0].(horario := x.horario, profesores := x.profesores)];
      var e2 := AgregarSeccion(e, c, detalle).value;
      assert e2.ramos == e.ramos[sigla := lista2];
      if |previas| > 0 {
        assert lista2[1..|previas|] == previas[1..];
      }
    }
  }

  /**
   * A row with an empty code: with no carried subject the run fails;
   * otherwise a section with the carried name and department and the
   * row's own schedule is appended under the carried code.
   */
  lemma FilaSinSigla(e: Estado, c: seq<string>, detalle: Option<Extraccion>)
    requires Valido(e) && |c| >= 6 && Strip(c[0]) == ""
    ensures AgregarSeccion(e, c, detalle).None? <==> e.ultima.None? || detalle.None?
    ensures AgregarSeccion(e, c, detalle).Some? ==>
              var e2 := AgregarSeccion(e, c, detalle).value;
              var u := e.ultima.value;
              var x := detalle.value;
              && e2.ramos[u.sigla] == e.ramos[u.sigla] + [Seccion(Some(u.nombre), Some(u.departamento), Strip(c[3]), x.profesores, Strip(c[5]), x.horario)]
              && e2.ultima == e.ultima && e2.orden == e.orden
              && (forall k :: k != u.sigla ==> (k in e2.ramos <==> k in e.ramos))
              && (forall k :: k != u.sigla && k in e.ramos ==> e2.ramos[k] == e.ramos[k])
  {
  }

  /**
   * The debug limit: starting below 3, a successful walk never counts past
   * 3, so at most three non-divider rows are ever read.
   */
  lemma {:induction false} LimiteDepuracion(e: Estado, filas: seq<Fila>, popups: nat -> Option<Popup>, guardar: nat -> bool)
    requires Valido(e) && e.contador < 3
    ensures Recorrer(e, filas, popups, guardar).Some? ==> Recorrer(e, filas, popups, guardar).value.contador <= 3
    decreases |filas|
  {
    if filas != [] {
      match PasoFila(e, filas[0], popups, guardar)
      case Sigue(e2) =>
        LimiteDepuracion(e2, filas[1..], popups, guardar);
      case Corta(e2) =>
      case Falla =>
    }
  }

  /** A walk that reads no row with cells leaves the global database untouched. */
  lemma {:induction false} SoloSeparadores(e: Estado, filas: seq<Fila>, popups: nat -> Option<Popup>, guardar: nat -> bool)
    requires Valido(e)
    requires forall i :: 0 <= i < |filas| ==> filas[i].Separador?
    ensures Recorrer(e, filas, popups, guardar) == Some(e)
    decreases |filas|
  {
    if filas != [] {
      assert filas[0].Separador?;
      SoloSeparadores(e, filas[1..], popups, guardar);
    }
  }

  /**
   * The body of the loop for a row with at least six cells, updating the
   * subject map, its order and the carried subject.
   */
  method ProcesarFila(e: Estado, c: seq<string>, popups: nat -> Option<Popup>) returns (r: Option<Estado>)
    requires Valido(e) && |c| >= 6
    ensures r == AgregarSeccion(e, c, Detalle(Sedona, popups, e.contador))
  {
    var ramos := e.ramos;
    var orden := e.orden;
    var sigla := Strip(c[0]);
    var nombre := Strip(c[1]);
    var departamento := Strip(c[2]);
    var paralelo := Strip(c[3]);
    var cupos := Strip(c[5]);
    if sigla != "" {
      if sigla !in ramos {
        ramos := ramos[sigla := []];
        orden := orden + [sigla];
      }
      ramos := ramos[sigla := ramos[sigla] + [Seccion(Some(nombre), Some(departamento), paralelo, [], cupos, [])]];
      var x := AgregarHorario(Sedona, e.contador, popups);
      if x.None? {
        return None;
      }
      ramos := ramos[sigla := ramos[sigla][0 := ramos[sigla][0].(horario := x.value.horario, profesores := x.value.profesores)]];
      ghost var previas := if sigla in e.ramos then e.ramos[sigla] else [];
      ghost var lista := previas + [Seccion(Some(nombre), Some(departamento), paralelo, [], cupos, [])];
      assert ramos == e.ramos[sigla := lista[0 := lista[0].(horario := x.value.horario, profesores := x.value.profesores)]];
      r := Some(Estado(ramos, orden, e.contador, Some(Ultima(sigla, nombre, departamento)), e.publicado));
    } else {
      if e.ultima.None? {
        return None;
      }
      var u := e.ultima.value;
      var x := AgregarHorario(Sedona, e.contador, popups);
      if x.None? {
        return None;
      }
      ramos := ramos[u.sigla := ramos[u.sigla] + [Seccion(Some(u.nombre), Some(u.departamento), paralelo, x.value.profesores, cupos, x.value.horario)]];
      r := Some(e.(ramos := ramos));
    }
  }

  /** The row loop of actualizarBaseDatos. */
  method ActualizarBaseDatos(filas: seq<Fila>, popups: nat -> Option<Popup>, guardar: nat -> bool)
    returns (ok: bool, e: Estado)
    ensures ok <==> Recorrer(Inicial, filas, popups, guardar).Some?
    ensures ok ==> e == Recorrer(Inicial, filas, popups, guardar).value
  {
    e := Inicial;
    var i := 0;
    while i < |filas|
      invariant 0 <= i <= |filas|
      invariant Valido(e)
      invariant Recorrer(Inicial, filas, popups, guardar) == Recorrer(e, filas[i..], popups, guardar)
    {
      assert filas[i..][0] == filas[i] && filas[i..][1..] == filas[i + 1..];
      var fila := filas[i];
      if fila.Separador? {
        i := i + 1;
        continue;
      }
      var c := fila.celdas;
      var siguiente := e;
      if |c| > 0 {
        if |c| < 6 {
          return false, e;
        }
        var r := ProcesarFila(e, c, popups);
        if r.None? {
          return false, e;
        }
        siguiente := r.value;
      }
      if !guardar(e.contador) {
        return false, e;
      }
      e := siguiente.(contador := e.contador + 1, publicado := true);
      if e.contador == 3 {
        return true, e;
      }
      i := i + 1;
    }
    ok := true;
  }
}
