/**
 * The batch scraper's walk over the course table (scrapingSIGA): the same
 * carry-forward fold as the interactive scraper, plus resuming after a
 * stored checkpoint, a JSON snapshot and a checkpoint after every row, and
 * no debug limit.  Navigation, the snapshot and the checkpoint write are
 * given functions of the row counter; the checkpoint file and the retry
 * loop around the walk (cargarEstado, prepararTodo) are modelled on values.
 */
module PiedmontScrape {
  import opened Wrappers
  import opened Text
  import opened Schedule

  /** A subject tree: code -> sections, codes in insertion order; a code may be None. */
  datatype Arbol = Arbol(ramos: map<Option<string>, seq<Seccion>>, orden: seq<Option<string>>)

  predicate ArbolValido(a: Arbol) {
    SinRepetir(a.orden)
    && (forall k :: k in a.ramos ==> k in a.orden)
    && (forall i :: 0 <= i < |a.orden| ==> a.orden[i] in a.ramos)
  }

  const ArbolVacio: Arbol := Arbol(map[], [])

  /** The checkpoint file's content, as guardarEstado writes it. */
  datatype Checkpoint = Checkpoint(campus: string, periodo: string, ultimoContador: nat, archivoJson: string)

  /**
   * The walker's state: the tree, the row counter, the last-seen code, name
   * and department (None until a row with a code), and the last checkpoint
   * written.
   */
  datatype Estado = Estado(
    arbol: Arbol,
    contador: nat,
    ultimaSigla: Option<string>,
    ultimoNombre: Option<string>,
    ultimoDepto: Option<string>,
    checkpoint: Option<nat>)

  predicate Valido(e: Estado) {
    ArbolValido(e.arbol)
  }

  /** Where the walk resumes: right after the checkpoint's row, or at 0. */
  function ContadorInicio(previo: Option<Checkpoint>): (n: nat)
    ensures previo.Some? ==> n == previo.value.ultimoContador + 1
    ensures previo.None? ==> n == 0
  {
    if previo.Some? then previo.value.ultimoContador + 1 else 0
  }

  /** The state the walk starts from: the stored tree, nothing carried. */
  function Arranque(base: Arbol, previo: Option<Checkpoint>): Estado {
    Estado(base, 0, None, None, None, if previo.Some? then Some(previo.value.ultimoContador) else None)
  }

  /**
   * A data row with at least six cells: exactly one section, filed under
   * the row's code or, when the code is empty, the last-seen one; name and
   * department come from the row or from the last-seen ones.  None when the
   * popup yields no schedule.
   */
  function AgregarSeccion(e: Estado, c: seq<string>, detalle: Option<Extraccion>): (r: Option<Estado>)
    requires Valido(e) && |c| >= 6
    ensures r.None? <==> detalle.None?
    ensures r.Some? ==> Valido(r.value) && r.value.contador == e.contador && r.value.checkpoint == e.checkpoint
  {
    match detalle
    case None => None
    case Some(x) =>
      var sigla := Strip(c[0]);
      var nombre := Strip(c[1]);
      var depto := Strip(c[2]);
      var seccion := Seccion(
        if sigla != "" then Some(nombre) else e.ultimoNombre,
        if sigla != "" then Some(depto) else e.ultimoDepto,
        Strip(c[3]), x.profesores, Strip(c[5]), x.horario);
      var clave := if sigla != "" then Some(sigla) else e.ultimaSigla;
      var a := e.arbol;
      var previas := if clave in a.ramos then a.ramos[clave] else [];
      var orden := if clave in a.ramos then a.orden else a.orden + [clave];
      var e2 := e.(arbol := Arbol(a.ramos[clave := previas + [seccion]], orden));
      if sigla != "" then Some(e2.(ultimaSigla := Some(sigla), ultimoNombre := Some(nombre), ultimoDepto := Some(depto)))
      else Some(e2)
  }

  /** After a row: the snapshot is saved and, only if that worked, the checkpoint too. */
  function Persistir(e: Estado, json: nat -> bool, estado: nat -> bool): (r: Estado)
    ensures r.arbol == e.arbol && r.contador == e.contador
    ensures r.checkpoint != e.checkpoint ==> r.checkpoint == Some(e.contador) && json(e.contador)
  {
    if json(e.contador) && estado(e.contador) then e.(checkpoint := Some(e.contador)) else e
  }

  /**
   * One iteration of the row loop: below the resume point every row only
   * advances the counter; dividers are skipped without counting; a row
   * without cells only counts; a short row or a missing schedule ends the
   * run with False.
   */
  function PasoFila(e: Estado, inicio: nat, fila: Fila, popups: nat -> Option<Popup>, json: nat -> bool, estado: nat -> bool)
    : (r: Option<Estado>)
    requires Valido(e)
    ensures r.Some? ==> Valido(r.value) && r.value.contador >= e.contador
    ensures r.Some? && r.value.checkpoint != e.checkpoint ==>
              r.value.checkpoint == Some(e.contador) && json(e.contador) && r.value.contador == e.contador + 1
  {
    if e.contador < inicio then Some(e.(contador := e.contador + 1))
    else
      match fila
      case Separador => Some(e)
      case Celdas(c) =>
        if |c| == 0 then Some(e.(contador := e.contador + 1))
        else if |c| < 6 then None
        else
          match AgregarSeccion(e, c, Detalle(Piedmont, popups, e.contador))
          case None => None
          case Some(e2) => Some(Persistir(e2, json, estado).(contador := e.contador + 1))
  }

  /** The whole loop: None when scrapingSIGA returns False. */
  function Recorrer(e: Estado, inicio: nat, filas: seq<Fila>, popups: nat -> Option<Popup>, json: nat -> bool, estado: nat -> bool)
    : (r: Option<Estado>)
    requires Valido(e)
    ensures r.Some? ==> Valido(r.value) && r.value.contador >= e.contador
    decreases |filas|
  {
    if filas == [] then Some(e)
    else
      match PasoFila(e, inicio, filas[0], popups, json, estado)
      case None => None
      case Some(e2) => Recorrer(e2, inicio, filas[1..], popups, json, estado)
  }

  /**
   * The resume phase: while the counter is below the resume point, rows of
   * any kind, dividers included, only advance the counter.
   */
  lemma {:induction false} SaltoInicial(e: Estado, inicio: nat, filas: seq<Fila>, popups: nat -> Option<Popup>, json: nat -> bool, estado: nat -> bool)
    requires Valido(e) && e.contador + |filas| <= inicio
    ensures Recorrer(e, inicio, filas, popups, json, estado) == Some(e.(contador := e.contador + |filas|))
    decreases |filas|
  {
    if filas != [] {
      var e2 := e.(contador := e.contador + 1);
      SaltoInicial(e2, inicio, filas[1..], popups, json, estado);
    }
  }

  /**
   * A processed row adds exactly one section, at the end of its key's list;
   * the last-seen triple changes only on rows with a code; other keys keep
   * their lists.
   */
  lemma UnaSeccionPorFila(e: Estado, c: seq<string>, x: Extraccion)
    requires Valido(e) && |c| >= 6
    ensures var r := AgregarSeccion(e, c, Some(x)).value;
            var sigla := Strip(c[0]);
            var clave := if sigla != "" then Some(sigla) else e.ultimaSigla;
            var previas := if clave in e.arbol.ramos then e.arbol.ramos[clave] else [];
            && r.arbol.ramos.Keys == e.arbol.ramos.Keys + {clave}
            && r.arbol.ramos[clave] == previas + [Seccion(
                 if sigla != "" then Some(Strip(c[1])) else e.ultimoNombre,
                 if sigla != "" then Some(Strip(c[2])) else e.ultimoDepto,
                 Strip(c[3]), x.profesores, Strip(c[5]), x.horario)]
            && (forall k :: k in e.arbol.ramos && k != clave ==> r.arbol.ramos[k] == e.arbol.ramos[k])
            && (sigla == "" ==> r.ultimaSigla == e.ultimaSigla && r.ultimoNombre == e.ultimoNombre && r.ultimoDepto == e.ultimoDepto)
            && (sigla != "" ==> r.ultimaSigla == Some(sigla) && r.ultimoNombre == Some(Strip(c[1])) && r.ultimoDepto == Some(Strip(c[2])))
  {
  }

  /** Fail fast: when the popup yields no schedule the run ends and that row adds nothing. */
  lemma FallaRapida(e: Estado, inicio: nat, c: seq<string>, resto: seq<Fila>, popups: nat -> Option<Popup>, json: nat -> bool, estado: nat -> bool)
    requires Valido(e) && inicio <= e.contador && |c| >= 6 && Detalle(Piedmont, popups, e.contador).None?
    ensures Recorrer(e, inicio, [Celdas(c)] + resto, popups, json, estado).None?
  {
    assert ([Celdas(c)] + resto)[0] == Celdas(c);
  }

  /**
   * Checkpoints follow snapshots: along a successful walk the stored
   * checkpoint only ever changes to the counter of a processed row whose
   * snapshot was saved, and that counter is below the final one.
   */
  lemma {:induction false} CheckpointTrasJson(e: Estado, inicio: nat, filas: seq<Fila>, popups: nat -> Option<Popup>, json: nat -> bool, estado: nat -> bool)
    requires Valido(e)
    ensures var r := Recorrer(e, inicio, filas, popups, json, estado);
            r.Some? && r.value.checkpoint != e.checkpoint ==>
              && r.value.checkpoint.Some?
              && json(r.value.checkpoint.value)
              && e.contador <= r.value.checkpoint.value < r.value.contador
    decreases |filas|
  {
    if filas != [] {
      match PasoFila(e, inicio, filas[0], popups, json, estado)
      case None =>
      case Some(e2) =>
        CheckpointTrasJson(e2, inicio, filas[1..], popups, json, estado);
    }
  }

  /** scrapingSIGA's loop body for a row with at least six cells. */
  method ProcesarFila(e: Estado, c: seq<string>, popups: nat -> Option<Popup>) returns (r: Option<Estado>)
    requires Valido(e) && |c| >= 6
    ensures r == AgregarSeccion(e, c, Detalle(Piedmont, popups, e.contador))
  {
    var sigla := Strip(c[0]);
    var nombre := Strip(c[1]);
    var depto := Strip(c[2]);
    var paralelo := Strip(c[3]);
    var cupos := Strip(c[5]);
    var x := AgregarHorario(Piedmont, e.contador, popups);
    if x.None? {
      return None;
    }
    var seccion := Seccion(
      if sigla != "" then Some(nombre) else e.ultimoNombre,
      if sigla != "" then Some(depto) else e.ultimoDepto,
      paralelo, x.value.profesores, cupos, x.value.horario);
    var clave := if sigla != "" then Some(sigla) else e.ultimaSigla;
    var ramos := e.arbol.ramos;
    var orden := e.arbol.orden;
    if clave !in ramos {
      ramos := ramos[clave := []];
      orden := orden + [clave];
    }
    ramos := ramos[clave := ramos[clave] + [seccion]];
    ghost var previas := if clave in e.arbol.ramos then e.arbol.ramos[clave] else [];
    assert ramos == e.arbol.ramos[clave := previas + [seccion]];
    var s := e.(arbol := Arbol(ramos, orden));
    if sigla != "" {
      s := s.(ultimaSigla := Some(sigla), ultimoNombre := Some(nombre), ultimoDepto := Some(depto));
    }
    r := Some(s);
  }

  /**
   * The row loop of scrapingSIGA on the tree stored for this campus and
   * period (empty when there is none), resuming after the checkpoint.
   */
  method ScrapingSiga(base: Option<Arbol>, previo: Option<Checkpoint>, filas: seq<Fila>,
                      popups: nat -> Option<Popup>, json: nat -> bool, estado: nat -> bool)
    returns (ok: bool, e: Estado)
    requires base.Some? ==> ArbolValido(base.value)
    ensures var a := if base.Some? then base.value else ArbolVacio;
            var r := Recorrer(Arranque(a, previo), ContadorInicio(previo), filas, popups, json, estado);
            (ok <==> r.Some?) && (ok ==> e == r.value)
  {
    var a := if base.Some? then base.value else ArbolVacio;
    var inicio := ContadorInicio(previo);
    e := Arranque(a, previo);
    var i := 0;
    while i < |filas|
      invariant 0 <= i <= |filas|
      invariant Valido(e)
      invariant Recorrer(Arranque(a, previo), inicio, filas, popups, json, estado) == Recorrer(e, inicio, filas[i..], popups, json, estado)
    {
      RecorrerUnPaso(e, inicio, filas[i..], popups, json, estado);
      assert filas[i..][0] == filas[i] && filas[i..][1..] == filas[i + 1..];
      var r := AvanzarFila(e, inicio, filas[i], popups, json, estado);
      if r.None? {
        return false, e;
      }
      e := r.value;
      i := i + 1;
    }
    ok := true;
  }

  /** The body of scrapingSIGA's loop for one row: skip, ignore, fail or add a section. */
  method AvanzarFila(e: Estado, inicio: nat, fila: Fila, popups: nat -> Option<Popup>, json: nat -> bool, estado: nat -> bool)
    returns (r: Option<Estado>)
    requires Valido(e)
    ensures r == PasoFila(e, inicio, fila, popups, json, estado)
  {
    if e.contador < inicio {
      return Some(e.(contador := e.contador + 1));
    }
    if fila.Separador? {
      return Some(e);
    }
    var c := fila.celdas;
    var s := e;
    if |c| > 0 {
      if |c| < 6 {
        return None;
      }
      var p := ProcesarFila(e, c, popups);
      if p.None? {
        return None;
      }
      s := p.value;
      if json(s.contador) && estado(s.contador) {
        s := s.(checkpoint := Some(s.contador));
      }
      assert s == Persistir(p.value, json, estado);
    }
    return Some(s.(contador := s.contador + 1));
  }

  /** One row of the walk: Recorrer is PasoFila followed by the walk of the rest. */
  lemma RecorrerUnPaso(e: Estado, inicio: nat, filas: seq<Fila>, popups: nat -> Option<Popup>, json: nat -> bool, estado: nat -> bool)
    requires Valido(e) && filas != []
    ensures var p := PasoFila(e, inicio, filas[0], popups, json, estado);
            Recorrer(e, inicio, filas, popups, json, estado)
              == if p.None? then None else Recorrer(p.value, inicio, filas[1..], popups, json, estado)
  {
  }

  // ---------------------------------------------------------------------------
  // The checkpoint file

  datatype ArchivoEstado = Ausente | Ilegible | Presente(contenido: Checkpoint)

  /** What cargarEstado returns and what it leaves on disk. */
  datatype Carga = Carga(previo: Option<Checkpoint>, archivo: ArchivoEstado)

  /**
   * cargarEstado: a checkpoint is resumed only when both its campus and its
   * period equal the current ones; a mismatching file is deleted; a missing
   * or unreadable file gives None and is left as is.
   */
  function CargarEstado(archivo: ArchivoEstado, campus: string, periodo: string): (r: Carga)
    ensures r.previo.Some? <==> archivo.Presente? && archivo.contenido.campus == campus && archivo.contenido.periodo == periodo
    ensures r.previo.Some? ==> r.previo.value == archivo.contenido && r.archivo == archivo
    ensures archivo.Presente? && r.previo.None? ==> r.archivo == Ausente
    ensures !archivo.Presente? ==> r.archivo == archivo
  {
    match archivo
    case Presente(ck) =>
      if ck.campus == campus && ck.periodo == periodo then Carga(Some(ck), archivo)
      else Carga(None, Ausente)
    case _ => Carga(None, archivo)
  }

  /** guardarEstado followed by cargarEstado with the same campus and period resumes after that row. */
  lemma GuardarCargar(campus: string, periodo: string, contador: nat, archivoJson: string)
    ensures var ck := Checkpoint(campus, periodo, contador, archivoJson);
            ContadorInicio(CargarEstado(Presente(ck), campus, periodo).previo) == contador + 1
  {
  }

  /** The campus name used in the tree: the five known codes, otherwise "Desconocido". */
  function NombreCampus(codigo: string): (r: string)
    ensures r == "Desconocido" <==> codigo !in {"1", "4", "7", "2", "3"}
  {
    match codigo
    case "1" => "Casa Central"
    case "4" => "Concepción"
    case "7" => "Santiago San Joaquín"
    case "2" => "Vitacura"
    case "3" => "Viña del Mar"
    case _ => "Desconocido"
  }

  // ---------------------------------------------------------------------------
  // The retry loop

  const IntentosMax: nat := 5

  /** The arguments scrapingSIGA is called with: the checkpoint and the stored tree (None: no database yet). */
  datatype Llamada = Llamada(previo: Option<Checkpoint>, base: Option<Arbol>)

  /**
   * What the retry loop depends on, by attempt number: the tree a walk
   * called with given arguments ends with (None: it returned False), and
   * whether the database import works.
   */
  datatype Entorno = Entorno(scrape: (nat, Llamada) -> Option<Arbol>, bdd: nat -> bool)

  /** The walk of attempt i as modelled above, from that attempt's rows, popups and saves. */
  function Caminata(filas: nat -> seq<Fila>, popups: nat -> nat -> Option<Popup>, json: nat -> nat -> bool,
                    estado: nat -> nat -> bool, i: nat, l: Llamada): (r: Option<Arbol>)
    ensures r.Some? ==> ArbolValido(r.value)
  {
    if l.base.Some? && !ArbolValido(l.base.value) then None
    else
      var a := if l.base.Some? then l.base.value else ArbolVacio;
      match Recorrer(Arranque(a, l.previo), ContadorInicio(l.previo), filas(i), popups(i), json(i), estado(i))
      case None => None
      case Some(e) => Some(e.arbol)
  }

  /** The attempt that completed and its tree, if any, and every call made on the way. */
  datatype Resultado = Resultado(completado: Option<(nat, Arbol)>, llamadas: seq<Llamada>)

  function Prefijar(ls: seq<Llamada>, r: Resultado): Resultado {
    r.(llamadas := ls + r.llamadas)
  }

  /**
   * prepararTodo from attempt i on: a successful walk drops the checkpoint
   * and, if the import works, ends the loop; a failed walk drops the tree
   * but keeps the checkpoint.
   */
  function Reintentar(i: nat, previo: Option<Checkpoint>, base: Option<Arbol>, ent: Entorno): (r: Resultado)
    requires 1 <= i
    ensures r.completado.Some? ==> i <= r.completado.value.0 <= IntentosMax && ent.bdd(r.completado.value.0)
    ensures i <= IntentosMax + 1 ==> |r.llamadas| == IntentosMax + 1 - i || r.completado.Some?
    ensures |r.llamadas| <= if i <= IntentosMax then IntentosMax + 1 - i else 0
    decreases IntentosMax + 1 - i
  {
    if i > IntentosMax then Resultado(None, [])
    else
      var l := Llamada(previo, base);
      match ent.scrape(i, l)
      case Some(a) =>
        if ent.bdd(i) then Resultado(Some((i, a)), [l])
        else Prefijar([l], Reintentar(i + 1, None, Some(a), ent))
      case None => Prefijar([l], Reintentar(i + 1, previo, None, ent))
  }

  /** One step of the retry loop, from the outcome of attempt i. */
  lemma ReintentarPaso(i: nat, previo: Option<Checkpoint>, base: Option<Arbol>, ent: Entorno)
    requires 1 <= i <= IntentosMax
    ensures var l := Llamada(previo, base);
            var a := ent.scrape(i, l);
            && (a.Some? && ent.bdd(i) ==> Reintentar(i, previo, base, ent) == Resultado(Some((i, a.value)), [l]))
            && (a.Some? && !ent.bdd(i) ==> Reintentar(i, previo, base, ent) == Prefijar([l], Reintentar(i + 1, None, a, ent)))
            && (a.None? ==> Reintentar(i, previo, base, ent) == Prefijar([l], Reintentar(i + 1, previo, None, ent)))
  {
  }

  lemma PrefijarPrefijar(a: seq<Llamada>, b: seq<Llamada>, r: Resultado)
    ensures Prefijar(a, Prefijar(b, r)) == Prefijar(a + b, r)
  {
    assert a + (b + r.llamadas) == (a + b) + r.llamadas;
  }

  /** Before attempt i, with the calls made so far, the whole loop still comes to total. */
  predicate Pendiente(total: Resultado, llamadas: seq<Llamada>, i: nat, previo: Option<Checkpoint>, base: Option<Arbol>, ent: Entorno) {
    1 <= i && total == Prefijar(llamadas, Reintentar(i, previo, base, ent))
  }

  /** An attempt that does not end the loop adds its call and hands over to the next attempt. */
  lemma SigueIntentando(total: Resultado, llamadas: seq<Llamada>, i: nat, previo: Option<Checkpoint>, base: Option<Arbol>, ent: Entorno,
                        l: Llamada, a: Option<Arbol>, siguiente: Option<Checkpoint>)
    requires i <= IntentosMax && Pendiente(total, llamadas, i, previo, base, ent)
    requires l == Llamada(previo, base) && a == ent.scrape(i, l) && !(a.Some? && ent.bdd(i))
    requires siguiente == if a.Some? then None else previo
    ensures Pendiente(total, llamadas + [l], i + 1, siguiente, a, ent)
  {
    ReintentarPaso(i, previo, base, ent);
    PrefijarPrefijar(llamadas, [l], Reintentar(i + 1, siguiente, a, ent));
  }

  /** An attempt whose walk and import both succeed ends the loop with its own call as the last. */
  lemma TerminaIntentando(total: Resultado, llamadas: seq<Llamada>, i: nat, previo: Option<Checkpoint>, base: Option<Arbol>, ent: Entorno)
    requires i <= IntentosMax && Pendiente(total, llamadas, i, previo, base, ent)
    requires var a := ent.scrape(i, Llamada(previo, base)); a.Some? && ent.bdd(i)
    ensures total == Resultado(Some((i, ent.scrape(i, Llamada(previo, base)).value)), llamadas + [Llamada(previo, base)])
  {
    var l := Llamada(previo, base);
    ReintentarPaso(i, previo, base, ent);
    PrefijarPrefijar(llamadas, [l], Resultado(Some((i, ent.scrape(i, l).value)), []));
  }

  /** Once every attempt has been made without success, nothing is completed and every call was made. */
  lemma SinIntentos(total: Resultado, llamadas: seq<Llamada>, previo: Option<Checkpoint>, base: Option<Arbol>, ent: Entorno)
    requires Pendiente(total, llamadas, IntentosMax + 1, previo, base, ent)
    ensures total == Resultado(None, llamadas)
  {
    assert llamadas + [] == llamadas;
  }

  /** The attempt loop, from the checkpoint file and the snapshot cargarEstado may load. */
  method PrepararTodo(archivo: ArchivoEstado, campus: string, periodo: string, guardado: Option<Arbol>, ent: Entorno)
    returns (r: Resultado)
    ensures var previo := CargarEstado(archivo, campus, periodo).previo;
            r == Reintentar(1, previo, if previo.Some? then guardado else None, ent)
  {
    var previo := CargarEstado(archivo, campus, periodo).previo;
    r := Intentar(previo, if previo.Some? then guardado else None, ent);
  }

  /** The while loop of prepararTodo, from the checkpoint and tree of the first attempt. */
  method Intentar(previo: Option<Checkpoint>, base: Option<Arbol>, ent: Entorno) returns (r: Resultado)
    ensures r == Reintentar(1, previo, base, ent)
  {
    ghost var total := Reintentar(1, previo, base, ent);
    var punto, arbolPrevio := previo, base;
    var llamadas: seq<Llamada> := [];
    var i := 1;
    while i <= IntentosMax
      invariant i <= IntentosMax + 1 && Pendiente(total, llamadas, i, punto, arbolPrevio, ent)
      decreases IntentosMax + 1 - i
    {
      var llamada := Llamada(punto, arbolPrevio);
      var arbol := ent.scrape(i, llamada);
      if arbol.Some? && ent.bdd(i) {
        TerminaIntentando(total, llamadas, i, punto, arbolPrevio, ent);
        return Resultado(Some((i, arbol.value)), llamadas + [llamada]);
      }
      var siguiente := if arbol.Some? then None else punto;
      SigueIntentando(total, llamadas, i, punto, arbolPrevio, ent, llamada, arbol, siguiente);
      punto, arbolPrevio, llamadas, i := siguiente, arbol, llamadas + [llamada], i + 1;
    }
    SinIntentos(total, llamadas, punto, arbolPrevio, ent);
    r := Resultado(None, llamadas);
  }

  /**
   * As written, an attempt after a failed one resumes from the stored
   * checkpoint with no tree: with a checkpoint after row 0 and a stored
   * tree holding subject "A", a first attempt that fails on a short row and
   * a second whose walk succeeds, the run completes with an empty tree.
   */
  lemma ReanudaSinArbol()
    ensures var ck := Checkpoint("7", "20252", 0, "bdd.json");
            var sec := Seccion(Some("N"), Some("D"), "1", [], "30", []);
            var base := Arbol(map[Some("A") := [sec]], [Some("A")]);
            var filas := (i: nat) => if i == 1 then [Separador, Celdas(["x"])] else [Separador];
            var ent := Entorno((i: nat, l: Llamada) => Caminata(filas, i => n => None, i => n => true, i => n => true, i, l), i => i == 2);
            var r := Reintentar(1, Some(ck), Some(base), ent);
            r.llamadas[1] == Llamada(Some(ck), None) && r.completado == Some((2, ArbolVacio))
  {
    var ck := Checkpoint("7", "20252", 0, "bdd.json");
    var sec := Seccion(Some("N"), Some("D"), "1", [], "30", []);
    var base := Arbol(map[Some("A") := [sec]], [Some("A")]);
    var filas := (i: nat) => if i == 1 then [Separador, Celdas(["x"])] else [Separador];
    var popups: nat -> nat -> Option<Popup> := i => n => None;
    var guardar: nat -> nat -> bool := i => n => true;
    var ent := Entorno((i: nat, l: Llamada) => Caminata(filas, popups, guardar, guardar, i, l), i => i == 2);
    var f1 := [Separador, Celdas(["x"])];
    assert filas(1) == f1 && f1[0] == Separador && f1[1..] == [Celdas(["x"])];
    assert filas(2) == [Separador] && [Separador][1..] == [];
    assert ArbolValido(base);
    var e1 := Arranque(base, Some(ck)).(contador := 1);
    assert PasoFila(Arranque(base, Some(ck)), 1, Separador, popups(1), guardar(1), guardar(1)) == Some(e1);
    assert PasoFila(e1, 1, Celdas(["x"]), popups(1), guardar(1), guardar(1)) == None;
    assert Recorrer(e1, 1, [Celdas(["x"])], popups(1), guardar(1), guardar(1)) == None;
    assert ent.scrape(1, Llamada(Some(ck), Some(base))).None?;
    var e2 := Arranque(ArbolVacio, Some(ck)).(contador := 1);
    assert PasoFila(Arranque(ArbolVacio, Some(ck)), 1, Separador, popups(2), guardar(2), guardar(2)) == Some(e2);
    assert Recorrer(e2, 1, [], popups(2), guardar(2), guardar(2)) == Some(e2);
    assert ent.scrape(2, Llamada(Some(ck), None)) == Some(ArbolVacio);
  }

  /** prepararTodo with a failed walk also dropping the checkpoint, so the next attempt starts over. */
  function ReintentarCorregido(i: nat, previo: Option<Checkpoint>, base: Option<Arbol>, ent: Entorno): (r: Resultado)
    requires 1 <= i
    ensures r.completado.Some? ==> i <= r.completado.value.0 <= IntentosMax && ent.bdd(r.completado.value.0)
    ensures |r.llamadas| <= if i <= IntentosMax then IntentosMax + 1 - i else 0
    decreases IntentosMax + 1 - i
  {
    if i > IntentosMax then Resultado(None, [])
    else
      var l := Llamada(previo, base);
      match ent.scrape(i, l)
      case Some(a) =>
        if ent.bdd(i) then Resultado(Some((i, a)), [l])
        else Prefijar([l], ReintentarCorregido(i + 1, None, Some(a), ent))
      case None => Prefijar([l], ReintentarCorregido(i + 1, None, None, ent))
  }

  /** No call of ls resumes from a checkpoint. */
  predicate SinReanudar(ls: seq<Llamada>) {
    forall k :: 0 <= k < |ls| ==> ls[k].previo.None?
  }

  /**
   * With the correction every walk that resumes does so on the tree that
   * was stored with its checkpoint: the only resuming call is the first,
   * and a run that starts without a checkpoint never resumes.
   */
  lemma {:induction false} ReanudaConSuArbol(i: nat, previo: Option<Checkpoint>, base: Option<Arbol>, ent: Entorno)
    requires 1 <= i
    ensures var ls := ReintentarCorregido(i, previo, base, ent).llamadas;
            forall k :: 0 <= k < |ls| && ls[k].previo.Some? ==> k == 0 && ls[k] == Llamada(previo, base)
    ensures previo.None? ==> SinReanudar(ReintentarCorregido(i, previo, base, ent).llamadas)
    decreases IntentosMax + 1 - i
  {
    if i <= IntentosMax {
      var l := Llamada(previo, base);
      match ent.scrape(i, l)
      case Some(a) =>
        if !ent.bdd(i) {
          ReanudaConSuArbol(i + 1, None, Some(a), ent);
          PrimeraLlamada(l, ReintentarCorregido(i + 1, None, Some(a), ent).llamadas);
        }
      case None =>
        ReanudaConSuArbol(i + 1, None, None, ent);
        PrimeraLlamada(l, ReintentarCorregido(i + 1, None, None, ent).llamadas);
    }
  }

  /** One more call in front of calls that never resume: only the new call may resume. */
  lemma PrimeraLlamada(l: Llamada, ls: seq<Llamada>)
    requires SinReanudar(ls)
    ensures forall k :: 0 <= k < |[l] + ls| && ([l] + ls)[k].previo.Some? ==> k == 0 && ([l] + ls)[k] == l
    ensures l.previo.None? ==> SinReanudar([l] + ls)
  {
    forall k | 0 < k < |[l] + ls|
      ensures ([l] + ls)[k].previo.None?
    {
      assert ([l] + ls)[k] == ls[k - 1];
    }
  }
}
