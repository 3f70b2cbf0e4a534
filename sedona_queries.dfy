/**
 * The query side of the interactive scraper: the room index built from the
 * stored schedules (enumerarSalas), the free-room checks on top of it, the
 * current semester code and the campus menu.
 */
module SedonaConsultas {
  import opened Wrappers
  import opened Text
  import opened Schedule

  // ---------------------------------------------------------------------------
  // Room names

  /** normalizarNombreSala: drops a leading "sala " (any letter case). */
  function NormalizarNombreSala(s: string): (r: string)
    ensures |r| <= |s| && r == s[|s| - |r|..]
  {
    if StartsWith(Lower(s), "sala ") then s[5..] else s
  }

  /** The prefix is removed whatever its letter case, and only a prefix is. */
  lemma NormalizarNombreSalaPrefijo(p: string, x: string)
    requires |p| == 5 && Lower(p) == "sala "
    ensures NormalizarNombreSala(p + x) == x
    ensures !StartsWith(Lower(x), "sala ") ==> NormalizarNombreSala(x) == x
  {
    assert Lower(p + x)[..5] == Lower(p);
    assert (p + x)[5..] == x;
  }

  // ---------------------------------------------------------------------------
  // The room index

  /** A (block, day) key of a room's table. */
  type Slot = (int, int)

  /** A room's table: slot -> "code paralelo" of the section there, or None. */
  type Tabla = map<Slot, Option<string>>

  /** The room index and the order in which rooms were first met. */
  datatype Salas = Salas(disp: map<string, Tabla>, orden: seq<string>)

  /** The 70 (block, day) keys every room's table has. */
  const SlotsValidos: set<Slot> := set b: int, d: int | 0 <= b < Bloques && 0 <= d < Dias :: (b, d)

  function TablaLibre(): (t: Tabla)
    ensures t.Keys == SlotsValidos
  {
    map k | k in SlotsValidos :: None
  }

  datatype Asignatura = Asignatura(sigla: string, secciones: seq<Seccion>)

  /** A section together with its subject code, in the order the loops visit them. */
  datatype Entrada = Entrada(sigla: string, seccion: Seccion)

  /** Indexing [b][d] succeeds for every block and day. */
  predicate CubreMatriz(h: Horario) {
    |h| >= Bloques && forall b :: 0 <= b < Bloques ==> |h[b]| >= Dias
  }

  predicate Indexables(asigs: seq<Asignatura>) {
    forall i, j :: 0 <= i < |asigs| && 0 <= j < |asigs[i].secciones| ==> CubreMatriz(asigs[i].secciones[j].horario)
  }

  predicate EntradasIndexables(flat: seq<Entrada>) {
    forall j :: 0 <= j < |flat| ==> CubreMatriz(flat[j].seccion.horario)
  }

  function Entradas(a: Asignatura): (r: seq<Entrada>)
    ensures |r| == |a.secciones| && forall j :: 0 <= j < |r| ==> r[j] == Entrada(a.sigla, a.secciones[j])
  {
    seq(|a.secciones|, j requires 0 <= j < |a.secciones| => Entrada(a.sigla, a.secciones[j]))
  }

  /** Every section of every subject, subjects in order, sections in order. */
  function Aplanar(asigs: seq<Asignatura>): (r: seq<Entrada>)
    ensures Indexables(asigs) ==> EntradasIndexables(r)
  {
    if asigs == [] then [] else Aplanar(asigs[..|asigs| - 1]) + Entradas(asigs[|asigs| - 1])
  }

  function Etiqueta(x: Entrada): string {
    x.sigla + " " + x.seccion.paralelo
  }

  /** Section x has a room in slot k whose normalized name is r. */
  predicate Usa(x: Entrada, r: string, k: Slot)
    requires CubreMatriz(x.seccion.horario)
  {
    0 <= k.0 < Bloques && 0 <= k.1 < Dias
    && x.seccion.horario[k.0][k.1] != ""
    && NormalizarNombreSala(x.seccion.horario[k.0][k.1]) == r
  }

  /** The label of the last section (in visiting order) that uses room r in slot k. */
  function Ocupante(flat: seq<Entrada>, r: string, k: Slot): Option<string>
    requires EntradasIndexables(flat)
  {
    if flat == [] then None
    else if Usa(flat[|flat| - 1], r, k) then Some(Etiqueta(flat[|flat| - 1]))
    else Ocupante(flat[..|flat| - 1], r, k)
  }

  /** Some section uses the room in that slot exactly when it has an occupant. */
  lemma {:induction false} OcupanteExiste(flat: seq<Entrada>, r: string, k: Slot)
    requires EntradasIndexables(flat)
    ensures Ocupante(flat, r, k).Some? <==> exists j :: 0 <= j < |flat| && Usa(flat[j], r, k)
  {
    if flat != [] {
      var ini := flat[..|flat| - 1];
      OcupanteExiste(ini, r, k);
      if exists j :: 0 <= j < |flat| && Usa(flat[j], r, k) {
        var j :| 0 <= j < |flat| && Usa(flat[j], r, k);
        if j < |flat| - 1 {
          assert Usa(ini[j], r, k);
        }
      }
    }
  }

  /** One write of the loop: room `sala`, slot `slot`, label `etiqueta`. */
  datatype Marca = Marca(sala: string, slot: Slot, etiqueta: string)

  function MarcaCelda(x: Entrada, b: nat, d: nat): seq<Marca>
    requires CubreMatriz(x.seccion.horario) && b < Bloques && d < Dias
  {
    var sala := x.seccion.horario[b][d];
    if sala != "" then [Marca(NormalizarNombreSala(sala), (b, d), Etiqueta(x))] else []
  }

  /** A point of the loops: before block b of day d (day 7 is the end). */
  predicate PuntoDeBucle(d: nat, b: nat) {
    (d < Dias && b <= Bloques) || (d == Dias && b == 0)
  }

  /** Writes made before block b of day d: the earlier days whole, then the first b blocks of day d. */
  function MarcasHasta(x: Entrada, d: nat, b: nat): seq<Marca>
    requires CubreMatriz(x.seccion.horario) && PuntoDeBucle(d, b)
    decreases d, b
  {
    if b > 0 then MarcasHasta(x, d, b - 1) + MarcaCelda(x, b - 1, d)
    else if d > 0 then MarcasHasta(x, d - 1, Bloques)
    else []
  }

  /** Every write of the loops, in order. */
  function MarcasTodas(flat: seq<Entrada>): seq<Marca>
    requires EntradasIndexables(flat)
  {
    if flat == [] then [] else MarcasTodas(flat[..|flat| - 1]) + MarcasSeccion(flat[|flat| - 1])
  }

  /** Every write for one section: all days, all blocks. */
  function MarcasSeccion(x: Entrada): seq<Marca>
    requires CubreMatriz(x.seccion.horario)
  {
    MarcasHasta(x, Dias, 0)
  }

  /** One write: a room met for the first time gets a table with all 70 slots free. */
  function Aplicar(s: Salas, m: Marca): Salas {
    if m.sala in s.disp then Salas(s.disp[m.sala := s.disp[m.sala][m.slot := Some(m.etiqueta)]], s.orden)
    else Salas(s.disp[m.sala := TablaLibre()[m.slot := Some(m.etiqueta)]], s.orden + [m.sala])
  }

  /** The label of the last write to (r, k). */
  function UltimaMarca(ms: seq<Marca>, r: string, k: Slot): Option<string> {
    if ms == [] then None
    else if ms[|ms| - 1].sala == r && ms[|ms| - 1].slot == k then Some(ms[|ms| - 1].etiqueta)
    else UltimaMarca(ms[..|ms| - 1], r, k)
  }

  predicate SlotsEnRango(ms: seq<Marca>) {
    forall i :: 0 <= i < |ms| ==> ms[i].slot in SlotsValidos
  }

  /** The writes applied in order to an empty index (the body of enumerarSalas' loops). */
  function Plegar(ms: seq<Marca>): Salas {
    PlegarDesde(Salas(map[], []), ms)
  }

  /** The writes applied in order to the index s0. */
  function PlegarDesde(s0: Salas, ms: seq<Marca>): Salas {
    if ms == [] then s0 else Aplicar(PlegarDesde(s0, ms[..|ms| - 1]), ms[|ms| - 1])
  }

  lemma {:induction false} PlegarDesdeConcat(s0: Salas, a: seq<Marca>, b: seq<Marca>)
    ensures PlegarDesde(s0, a + b) == PlegarDesde(PlegarDesde(s0, a), b)
    decreases |b|
  {
    if b == [] {
      assert a + b == a;
    } else {
      assert (a + b)[..|a + b| - 1] == a + b[..|b| - 1];
      PlegarDesdeConcat(s0, a, b[..|b| - 1]);
    }
  }

  /**
   * A room is present iff some write names it, its table has exactly the
   * 70 slots, and the order lists each present room once.
   */
  lemma {:induction false} PlegarSalas(ms: seq<Marca>)
    requires SlotsEnRango(ms)
    ensures forall r :: r in Plegar(ms).disp <==> Nombra(ms, r)
    ensures forall r :: r in Plegar(ms).disp ==> Plegar(ms).disp[r].Keys == SlotsValidos
    ensures SinRepetir(Plegar(ms).orden) && (forall r :: r in Plegar(ms).disp <==> r in Plegar(ms).orden)
  {
    if ms != [] {
      var ini := ms[..|ms| - 1];
      assert forall i :: 0 <= i < |ini| ==> ini[i] == ms[i];
      PlegarSalas(ini);
      NombraUltima(ms, ini);
      AplicarBien(Plegar(ini), ms[|ms| - 1]);
    }
  }

  /** Every room of the index has the full table and the order lists each room once. */
  ghost predicate IndiceBien(s: Salas) {
    (forall r :: r in s.disp ==> s.disp[r].Keys == SlotsValidos)
    && SinRepetir(s.orden) && (forall r :: r in s.disp <==> r in s.orden)
  }

  /** One write keeps the index well formed and adds its own room, if new, and no other. */
  lemma AplicarBien(s: Salas, m: Marca)
    requires IndiceBien(s) && m.slot in SlotsValidos
    ensures IndiceBien(Aplicar(s, m))
    ensures forall r :: r in Aplicar(s, m).disp <==> r in s.disp || r == m.sala
  {
    if m.sala !in s.disp {
      SinRepetirMas(s.orden, m.sala);
    }
  }

  /** Some write of ms names room r. */
  predicate Nombra(ms: seq<Marca>, r: string) {
    exists i :: 0 <= i < |ms| && ms[i].sala == r
  }

  /** A room is named by a list of writes iff its last write or an earlier one names it. */
  lemma NombraUltima(ms: seq<Marca>, ini: seq<Marca>)
    requires ms != [] && ini == ms[..|ms| - 1]
    ensures forall r :: Nombra(ms, r) <==> Nombra(ini, r) || ms[|ms| - 1].sala == r
  {
    forall r | Nombra(ms, r)
      ensures Nombra(ini, r) || ms[|ms| - 1].sala == r
    {
      var i :| 0 <= i < |ms| && ms[i].sala == r;
      if i < |ini| {
        assert ini[i] == ms[i];
      }
    }
    forall r | Nombra(ini, r)
      ensures Nombra(ms, r)
    {
      var i :| 0 <= i < |ini| && ini[i].sala == r;
      assert ms[i] == ini[i];
    }
  }

  /** Each slot of a room holds the label of the last write to it. */
  lemma {:induction false} PlegarValor(ms: seq<Marca>, r: string, k: Slot)
    requires SlotsEnRango(ms)
    requires r in Plegar(ms).disp && k in SlotsValidos
    ensures k in Plegar(ms).disp[r] && Plegar(ms).disp[r][k] == UltimaMarca(ms, r, k)
  {
    assert ms != [];
    var ini := ms[..|ms| - 1];
    var m := ms[|ms| - 1];
    assert Plegar(ms) == Aplicar(Plegar(ini), m);
    assert SlotsEnRango(ini) by {
      assert forall i :: 0 <= i < |ini| ==> ini[i] == ms[i];
    }
    if m.sala == r && m.slot == k {
    } else if r in Plegar(ini).disp {
      PlegarValor(ini, r, k);
    } else {
      assert m.sala == r;
      assert UltimaMarca(ini, r, k) == None by {
        if UltimaMarca(ini, r, k).Some? {
          UltimaMarcaViene(ini, r, k);
          PlegarSalas(ini);
        }
      }
    }
  }

  /** Writes of a section land in valid slots. */
  lemma {:induction false} MarcasEnRango(flat: seq<Entrada>)
    requires EntradasIndexables(flat)
    ensures SlotsEnRango(MarcasTodas(flat))
  {
    if flat != [] {
      var x := flat[|flat| - 1];
      MarcasEnRango(flat[..|flat| - 1]);
      MarcasHastaEnRango(x, Dias, 0);
    }
  }

  lemma {:induction false} MarcasHastaEnRango(x: Entrada, d: nat, b: nat)
    requires CubreMatriz(x.seccion.horario) && PuntoDeBucle(d, b)
    ensures SlotsEnRango(MarcasHasta(x, d, b))
    decreases d, b
  {
    if b > 0 {
      MarcasHastaEnRango(x, d, b - 1);
      assert (b - 1, d) in SlotsValidos;
    } else if d > 0 {
      MarcasHastaEnRango(x, d - 1, Bloques);
    }
  }

  /** The last write in a concatenation comes from the second part when it has one. */
  lemma {:induction false} UltimaMarcaConcat(a: seq<Marca>, b: seq<Marca>, r: string, k: Slot)
    ensures UltimaMarca(a + b, r, k) == if UltimaMarca(b, r, k).Some? then UltimaMarca(b, r, k) else UltimaMarca(a, r, k)
    decreases |b|
  {
    if b == [] {
      assert a + b == a;
    } else {
      assert (a + b)[..|a + b| - 1] == a + b[..|b| - 1];
      UltimaMarcaConcat(a, b[..|b| - 1], r, k);
    }
  }

  lemma UltimaMarcaCelda(x: Entrada, b: nat, d: nat, r: string, k: Slot)
    requires CubreMatriz(x.seccion.horario) && b < Bloques && d < Dias
    ensures UltimaMarca(MarcaCelda(x, b, d), r, k) == if k == (b, d) && Usa(x, r, k) then Some(Etiqueta(x)) else None
  {
    var c := MarcaCelda(x, b, d);
    if c != [] {
      assert c[..0] == [];
    }
  }

  /** Which writes before (d, b) reach slot k: those of a visited cell the section fills with room r. */
  predicate AlcanzaAntes(x: Entrada, d: nat, b: nat, r: string, k: Slot)
    requires CubreMatriz(x.seccion.horario)
  {
    (k.1 < d || (k.1 == d && k.0 < b)) && Usa(x, r, k)
  }

  /** The last write to slot k before (d, b) is the section's label exactly when that point has passed a cell using room r at k. */
  ghost predicate HastaBien(x: Entrada, d: nat, b: nat, r: string, k: Slot)
    requires CubreMatriz(x.seccion.horario) && PuntoDeBucle(d, b)
  {
    UltimaMarca(MarcasHasta(x, d, b), r, k) == if AlcanzaAntes(x, d, b, r, k) then Some(Etiqueta(x)) else None
  }

  /** One more block: the cell written last decides when it is slot k with room r. */
  lemma UltimaMarcaPasoBloque(x: Entrada, d: nat, b: nat, r: string, k: Slot)
    requires CubreMatriz(x.seccion.horario) && PuntoDeBucle(d, b) && b > 0
    requires HastaBien(x, d, b - 1, r, k)
    ensures HastaBien(x, d, b, r, k)
  {
    var antes, celda := MarcasHasta(x, d, b - 1), MarcaCelda(x, b - 1, d);
    assert MarcasHasta(x, d, b) == antes + celda;
    UltimaMarcaCelda(x, b - 1, d, r, k);
    AlcanzaPaso(x, d, b, r, k);
    UltimaMarcaUnion(antes, celda, r, k, Etiqueta(x), AlcanzaAntes(x, d, b - 1, r, k), k == (b - 1, d) && Usa(x, r, k));
  }

  /** When both parts write the same label or nothing, the whole writes it iff one of them does. */
  lemma UltimaMarcaUnion(antes: seq<Marca>, celda: seq<Marca>, r: string, k: Slot, e: string, enAntes: bool, enCelda: bool)
    requires UltimaMarca(antes, r, k) == (if enAntes then Some(e) else None)
    requires UltimaMarca(celda, r, k) == (if enCelda then Some(e) else None)
    ensures UltimaMarca(antes + celda, r, k) == if enAntes || enCelda then Some(e) else None
  {
    UltimaMarcaConcat(antes, celda, r, k);
  }

  /** Passing cell (b - 1, d) adds exactly that cell to the ones visited. */
  lemma AlcanzaPaso(x: Entrada, d: nat, b: nat, r: string, k: Slot)
    requires CubreMatriz(x.seccion.horario) && b > 0
    ensures AlcanzaAntes(x, d, b, r, k) <==> AlcanzaAntes(x, d, b - 1, r, k) || (k == (b - 1, d) && Usa(x, r, k))
  {
    if k.0 == b - 1 && k.1 == d {
      assert k == (b - 1, d);
    }
  }

  /** A new day starts where the previous day's last block ended. */
  lemma UltimaMarcaPasoDia(x: Entrada, d: nat, r: string, k: Slot)
    requires CubreMatriz(x.seccion.horario) && 0 < d <= Dias
    requires HastaBien(x, d - 1, Bloques, r, k)
    ensures HastaBien(x, d, 0, r, k)
  {
  }

  /** Before the first cell nothing has been written. */
  lemma UltimaMarcaInicio(x: Entrada, r: string, k: Slot)
    requires CubreMatriz(x.seccion.horario)
    ensures HastaBien(x, 0, 0, r, k)
  {
  }

  /** The writes before (d, b) reach slot k exactly when k's cell was visited and the section uses room r there. */
  lemma {:induction false} UltimaMarcaHasta(x: Entrada, d: nat, b: nat, r: string, k: Slot)
    requires CubreMatriz(x.seccion.horario) && PuntoDeBucle(d, b)
    ensures HastaBien(x, d, b, r, k)
    decreases d, b
  {
    if b > 0 {
      UltimaMarcaHasta(x, d, b - 1, r, k);
      UltimaMarcaPasoBloque(x, d, b, r, k);
    } else if d > 0 {
      UltimaMarcaHasta(x, d - 1, Bloques, r, k);
      UltimaMarcaPasoDia(x, d, r, k);
    } else {
      UltimaMarcaInicio(x, r, k);
    }
  }

  /** The last write to a slot is the label of the last section using it. */
  lemma {:induction false} UltimaMarcaEsOcupante(flat: seq<Entrada>, r: string, k: Slot)
    requires EntradasIndexables(flat)
    ensures UltimaMarca(MarcasTodas(flat), r, k) == Ocupante(flat, r, k)
  {
    if flat != [] {
      var x := flat[|flat| - 1];
      UltimaMarcaEsOcupante(flat[..|flat| - 1], r, k);
      UltimaMarcaHasta(x, Dias, 0, r, k);
      UltimaMarcaConcat(MarcasTodas(flat[..|flat| - 1]), MarcasSeccion(x), r, k);
    }
  }

  /** The index enumerarSalas builds from the subjects of one campus and period. */
  function Disponibilidad(asigs: seq<Asignatura>): Salas
    requires Indexables(asigs)
  {
    MarcasEnRango(Aplanar(asigs));
    Plegar(MarcasTodas(Aplanar(asigs)))
  }

  /**
   * The contents of the index: a room appears iff some section uses it in
   * some slot; its table has exactly the 70 (block, day) keys; a slot holds
   * "code paralelo" of the last section using the room there, else None.
   */
  lemma DisponibilidadContenido(asigs: seq<Asignatura>, r: string, k: Slot)
    requires Indexables(asigs)
    ensures r in Disponibilidad(asigs).disp <==> SalaOcupada(Aplanar(asigs), r)
    ensures r in Disponibilidad(asigs).disp ==> Disponibilidad(asigs).disp[r].Keys == SlotsValidos
    ensures r in Disponibilidad(asigs).disp && k in SlotsValidos ==>
              Disponibilidad(asigs).disp[r][k] == Ocupante(Aplanar(asigs), r, k)
  {
    DisponibilidadSalas(asigs, r);
    if r in Disponibilidad(asigs).disp && k in SlotsValidos {
      DisponibilidadValor(asigs, r, k);
    }
  }

  /** Some section uses room r in some slot. */
  ghost predicate SalaOcupada(flat: seq<Entrada>, r: string)
    requires EntradasIndexables(flat)
  {
    exists k2 :: k2 in SlotsValidos && Ocupante(flat, r, k2).Some?
  }

  /** The rooms of the index and the keys of their tables. */
  lemma DisponibilidadSalas(asigs: seq<Asignatura>, r: string)
    requires Indexables(asigs)
    ensures r in Disponibilidad(asigs).disp <==> SalaOcupada(Aplanar(asigs), r)
    ensures r in Disponibilidad(asigs).disp ==> Disponibilidad(asigs).disp[r].Keys == SlotsValidos
  {
    var flat := Aplanar(asigs);
    var ms := MarcasTodas(flat);
    MarcasEnRango(flat);
    PlegarSalas(ms);
    if r in Plegar(ms).disp {
      var i :| 0 <= i < |ms| && ms[i].sala == r;
      var k2 := ms[i].slot;
      UltimaMarcaPresente(ms, i);
      UltimaMarcaEsOcupante(flat, r, k2);
    }
    if SalaOcupada(flat, r) {
      var k2 :| k2 in SlotsValidos && Ocupante(flat, r, k2).Some?;
      UltimaMarcaEsOcupante(flat, r, k2);
      UltimaMarcaViene(ms, r, k2);
    }
  }

  /** A slot of an indexed room holds its occupant. */
  lemma DisponibilidadValor(asigs: seq<Asignatura>, r: string, k: Slot)
    requires Indexables(asigs) && r in Disponibilidad(asigs).disp && k in SlotsValidos
    ensures k in Disponibilidad(asigs).disp[r] && Disponibilidad(asigs).disp[r][k] == Ocupante(Aplanar(asigs), r, k)
  {
    var flat := Aplanar(asigs);
    var ms := MarcasTodas(flat);
    MarcasEnRango(flat);
    UltimaMarcaEsOcupante(flat, r, k);
    PlegarValor(ms, r, k);
  }

  /** A write is never forgotten: its slot has some last write. */
  lemma {:induction false} UltimaMarcaPresente(ms: seq<Marca>, i: nat)
    requires i < |ms|
    ensures UltimaMarca(ms, ms[i].sala, ms[i].slot).Some?
  {
    if i < |ms| - 1 {
      UltimaMarcaPresente(ms[..|ms| - 1], i);
    }
  }

  /** A last write is some write. */
  lemma {:induction false} UltimaMarcaViene(ms: seq<Marca>, r: string, k: Slot)
    requires UltimaMarca(ms, r, k).Some?
    ensures Nombra(ms, r)
  {
    if ms[|ms| - 1].sala != r || ms[|ms| - 1].slot != k {
      UltimaMarcaViene(ms[..|ms| - 1], r, k);
      var i :| 0 <= i < |ms| - 1 && ms[..|ms| - 1][i].sala == r;
      assert ms[i].sala == r;
    }
  }

  /** One cell of enumerarSalas' block loop. */
  method MarcarCelda(s: Salas, x: Entrada, b: nat, d: nat) returns (t: Salas)
    requires CubreMatriz(x.seccion.horario) && b < Bloques && d < Dias
    ensures t == PlegarDesde(s, MarcaCelda(x, b, d))
  {
    var sala := x.seccion.horario[b][d];
    t := s;
    if sala != "" {
      var r := NormalizarNombreSala(sala);
      if r !in t.disp {
        t := Salas(t.disp[r := TablaLibre()], t.orden + [r]);
      }
      t := t.(disp := t.disp[r := t.disp[r][(b, d) := Some(Etiqueta(x))]]);
      var m := Marca(r, (b, d), Etiqueta(x));
      assert [m][..0] == [];
      assert t == Aplicar(s, m);
    }
  }

  /** The day and block loops of enumerarSalas for one section. */
  method MarcarSeccion(s0: Salas, x: Entrada) returns (s: Salas)
    requires CubreMatriz(x.seccion.horario)
    ensures s == PlegarDesde(s0, MarcasSeccion(x))
  {
    s := s0;
    for d := 0 to Dias
      invariant s == PlegarDesde(s0, MarcasHasta(x, d, 0))
    {
      for b := 0 to Bloques
        invariant s == PlegarDesde(s0, MarcasHasta(x, d, b))
      {
        s := MarcarCelda(s, x, b, d);
        PlegarDesdeConcat(s0, MarcasHasta(x, d, b), MarcaCelda(x, b, d));
      }
    }
  }

  lemma EntradasIndexablesConcat(a: seq<Entrada>, b: seq<Entrada>)
    requires EntradasIndexables(a) && EntradasIndexables(b)
    ensures EntradasIndexables(a + b)
  {
    forall j | 0 <= j < |a + b|
      ensures CubreMatriz((a + b)[j].seccion.horario)
    {
      if j >= |a| {
        assert (a + b)[j] == b[j - |a|];
      }
    }
  }

  lemma Asociar<T>(p: seq<T>, q: seq<T>, r: seq<T>)
    ensures (p + q) + r == p + (q + r)
  {
  }

  lemma UltimoDeConcat<T>(a: seq<T>, b: seq<T>, ini: seq<T>, x: T)
    requires b != [] && ini == b[..|b| - 1] && x == b[|b| - 1]
    ensures (a + b)[..|a + b| - 1] == a + ini && (a + b)[|a + b| - 1] == x
  {
  }

  /** The writes of a non-empty list: those of all but its last section, then the last one's. */
  lemma MarcasTodasUltima(flat: seq<Entrada>, ini: seq<Entrada>, x: Entrada)
    requires EntradasIndexables(flat) && flat != [] && ini == flat[..|flat| - 1] && x == flat[|flat| - 1]
    ensures EntradasIndexables(ini) && MarcasTodas(flat) == MarcasTodas(ini) + MarcasSeccion(x)
  {
  }

  lemma {:induction false} MarcasTodasConcat(a: seq<Entrada>, b: seq<Entrada>)
    requires EntradasIndexables(a) && EntradasIndexables(b)
    ensures EntradasIndexables(a + b)
    ensures MarcasTodas(a + b) == MarcasTodas(a) + MarcasTodas(b)
    decreases |b|
  {
    EntradasIndexablesConcat(a, b);
    if b == [] {
      assert a + b == a;
    } else {
      var ini := b[..|b| - 1];
      IndexablesInicio(b, ini);
      MarcasTodasConcat(a, ini);
      MarcasTodasConcatPaso(a, b, ini, b[|b| - 1]);
    }
  }

  lemma IndexablesInicio(b: seq<Entrada>, ini: seq<Entrada>)
    requires EntradasIndexables(b) && b != [] && ini == b[..|b| - 1]
    ensures EntradasIndexables(ini)
  {
    assert forall j :: 0 <= j < |ini| ==> ini[j] == b[j];
  }

  /** The inductive step of MarcasTodasConcat: one more section at the end of b. */
  lemma MarcasTodasConcatPaso(a: seq<Entrada>, b: seq<Entrada>, ini: seq<Entrada>, x: Entrada)
    requires EntradasIndexables(a + b) && EntradasIndexables(b) && EntradasIndexables(a + ini)
    requires EntradasIndexables(a) && EntradasIndexables(ini)
    requires b != [] && ini == b[..|b| - 1] && x == b[|b| - 1]
    requires MarcasTodas(a + ini) == MarcasTodas(a) + MarcasTodas(ini)
    ensures MarcasTodas(a + b) == MarcasTodas(a) + MarcasTodas(b)
  {
    UltimoDeConcat(a, b, ini, x);
    MarcasTodasUltima(a + b, a + ini, x);
    MarcasTodasUltima(b, ini, x);
    Asociar(MarcasTodas(a), MarcasTodas(ini), MarcasSeccion(x));
  }

  /** One more section adds its own writes after those of the sections before it. */
  lemma MarcasTodasPaso(xs: seq<Entrada>, j: nat)
    requires j < |xs| && EntradasIndexables(xs[..j]) && CubreMatriz(xs[j].seccion.horario)
    ensures EntradasIndexables(xs[..j + 1])
    ensures MarcasTodas(xs[..j + 1]) == MarcasTodas(xs[..j]) + MarcasSeccion(xs[j])
  {
    assert xs[..j + 1][..j] == xs[..j];
    var hasta, antes := xs[..j + 1], xs[..j];
    forall k | 0 <= k < j + 1
      ensures CubreMatriz(hasta[k].seccion.horario)
    {
      if k < j {
        assert hasta[k] == antes[k];
      }
    }
  }

  /**
   * The section loop of enumerarSalas for one subject.  A section whose
   * matrix is smaller than 10 x 7 raises IndexError at horario[bloqueIdx][diaIdx],
   * which nothing catches: the whole call fails (None) and the index built
   * so far is lost.
   */
  method MarcarAsignatura(s0: Salas, a: Asignatura) returns (r: Option<Salas>)
    ensures r.None? <==> !EntradasIndexables(Entradas(a))
    ensures r.Some? ==> r.value == PlegarDesde(s0, MarcasTodas(Entradas(a)))
  {
    var xs := Entradas(a);
    var s := s0;
    for j := 0 to |a.secciones|
      invariant EntradasIndexables(xs[..j])
      invariant s == PlegarDesde(s0, MarcasTodas(xs[..j]))
    {
      if !CubreMatriz(xs[j].seccion.horario) {
        return None;
      }
      s := MarcarSeccion(s, xs[j]);
      MarcasTodasPaso(xs, j);
      PlegarDesdeConcat(s0, MarcasTodas(xs[..j]), MarcasSeccion(xs[j]));
    }
    assert xs[..|a.secciones|] == xs;
    return Some(s);
  }

  /** The stored subjects are indexable exactly when each one's sections are. */
  lemma IndexablesPorAsignatura(asigs: seq<Asignatura>)
    ensures Indexables(asigs) <==> forall i :: 0 <= i < |asigs| ==> EntradasIndexables(Entradas(asigs[i]))
  {
    if !Indexables(asigs) {
      var i, j :| 0 <= i < |asigs| && 0 <= j < |asigs[i].secciones| && !CubreMatriz(asigs[i].secciones[j].horario);
      assert Entradas(asigs[i])[j].seccion == asigs[i].secciones[j];
    }
  }

  /**
   * enumerarSalas' loop over subjects: the index of all stored schedules,
   * or None when some section's matrix is smaller than 10 x 7 (IndexError).
   */
  method EnumerarSalas(asigs: seq<Asignatura>) returns (r: Option<Salas>)
    ensures r.None? <==> !Indexables(asigs)
    ensures r.Some? ==> r.value == Disponibilidad(asigs)
  {
    IndexablesPorAsignatura(asigs);
    var s := Salas(map[], []);
    for i := 0 to |asigs|
      invariant Indexables(asigs[..i])
      invariant s == Plegar(MarcasTodas(Aplanar(asigs[..i])))
    {
      var m := MarcarAsignatura(s, asigs[i]);
      if m.None? {
        return None;
      }
      EnumerarPaso(asigs, i);
      s := m.value;
    }
    assert asigs[..|asigs|] == asigs;
    return Some(s);
  }

  /** One subject of enumerarSalas: its sections' marks follow those of the subjects before it. */
  lemma EnumerarPaso(asigs: seq<Asignatura>, i: nat)
    requires i < |asigs| && Indexables(asigs[..i]) && EntradasIndexables(Entradas(asigs[i]))
    ensures Indexables(asigs[..i + 1])
    ensures PlegarDesde(Plegar(MarcasTodas(Aplanar(asigs[..i]))), MarcasTodas(Entradas(asigs[i])))
            == Plegar(MarcasTodas(Aplanar(asigs[..i + 1])))
  {
    IndexablesMas(asigs, i);
    AplanarMas(asigs, i);
    var a, b := Aplanar(asigs[..i]), Entradas(asigs[i]);
    MarcasTodasConcat(a, b);
    PlegarDesdeConcat(Salas(map[], []), MarcasTodas(a), MarcasTodas(b));
  }

  lemma IndexablesMas(asigs: seq<Asignatura>, i: nat)
    requires i < |asigs| && Indexables(asigs[..i]) && EntradasIndexables(Entradas(asigs[i]))
    ensures Indexables(asigs[..i + 1])
  {
    var hasta, antes := asigs[..i + 1], asigs[..i];
    forall k, j | 0 <= k < |hasta| && 0 <= j < |hasta[k].secciones|
      ensures CubreMatriz(hasta[k].secciones[j].horario)
    {
      if k < i {
        assert hasta[k] == antes[k];
      } else {
        assert Entradas(asigs[i])[j].seccion == asigs[i].secciones[j];
      }
    }
  }

  lemma AplanarMas(asigs: seq<Asignatura>, i: nat)
    requires i < |asigs|
    ensures Aplanar(asigs[..i + 1]) == Aplanar(asigs[..i]) + Entradas(asigs[i])
  {
    assert asigs[..i + 1][..i] == asigs[..i];
  }

  /** Python's `t in s`: t occurs somewhere in s. */
  predicate Contiene(s: string, t: string)
    decreases |s|
  {
    StartsWith(s, t) || (s != [] && Contiene(s[1..], t))
  }

  /** The rooms of `orden`, in order, whose lower-cased name contains the lower-cased term. */
  function Coincidentes(orden: seq<string>, termino: string): (r: seq<string>)
    ensures forall x :: x in r <==> x in orden && Contiene(Lower(x), Lower(termino))
  {
    if orden == [] then []
    else Coincidentes(orden[..|orden| - 1], termino)
         + (if Contiene(Lower(orden[|orden| - 1]), Lower(termino)) then [orden[|orden| - 1]] else [])
  }

  /** One more room of the order is kept after the earlier matches exactly when it matches. */
  lemma CoincidentesPaso(orden: seq<string>, i: nat, termino: string)
    requires i < |orden|
    ensures Coincidentes(orden[..i + 1], termino)
            == Coincidentes(orden[..i], termino) + if Contiene(Lower(orden[i]), Lower(termino)) then [orden[i]] else []
  {
    assert orden[..i + 1][..i] == orden[..i];
  }

  datatype Busqueda = SoloTabla(salas: Salas) | Encontradas(encontradas: seq<string>, salas: Salas)

  /**
   * enumerarSalas(terminoBusqueda): without a term (None or "") only the
   * index; with one, also the rooms whose name contains it, in the order
   * the rooms were first met.
   */
  method EnumerarSalasBuscando(asigs: seq<Asignatura>, termino: Option<string>) returns (r: Option<Busqueda>)
    ensures r.None? <==> !Indexables(asigs)
    ensures r.Some? ==> r.value.salas == Disponibilidad(asigs)
    ensures r.Some? ==> (r.value.SoloTabla? <==> termino.None? || termino == Some(""))
    ensures r.Some? && r.value.Encontradas? ==> r.value.encontradas == Coincidentes(r.value.salas.orden, termino.value)
  {
    var e := EnumerarSalas(asigs);
    if e.None? {
      return None;
    }
    var s := e.value;
    if termino.None? || termino.value == "" {
      return Some(SoloTabla(s));
    }
    var t := Lower(termino.value);
    var encontradas: seq<string> := [];
    for i := 0 to |s.orden|
      invariant encontradas == Coincidentes(s.orden[..i], termino.value)
    {
      CoincidentesPaso(s.orden, i, termino.value);
      if Contiene(Lower(s.orden[i]), t) {
        encontradas := encontradas + [s.orden[i]];
      }
    }
    assert s.orden[..|s.orden|] == s.orden;
    r := Some(Encontradas(encontradas, s));
  }

  // ---------------------------------------------------------------------------
  // Free rooms

  /** dict.get: a slot missing from the table reads as None. */
  function Consultar(t: Tabla, k: Slot): Option<string> {
    if k in t then t[k] else None
  }

  /** Python truthiness of a slot value: a non-empty label. */
  predicate Ocupado(v: Option<string>) {
    v.Some? && v.value != ""
  }

  /** No section holds block b of day dia. */
  predicate BloqueLibre(t: Tabla, b: int, dia: int) {
    !Ocupado(Consultar(t, (b, dia)))
  }

  /** None of the n slots from block b0 on day dia holds a section. */
  predicate LibreEnBloques(t: Tabla, dia: int, b0: int, n: nat) {
    forall b :: b0 <= b < b0 + n ==> BloqueLibre(t, b, dia)
  }

  /** salaDisponibleEnBloquesConsecutivos: true iff none of the n blocks is taken. */
  method SalaDisponibleEnBloquesConsecutivos(disp: map<string, Tabla>, sala: string, dia: int, b0: int, n: nat)
    returns (libre: bool)
    requires sala in disp
    ensures libre <==> LibreEnBloques(disp[sala], dia, b0, n)
  {
    for i := 0 to n
      invariant forall b :: b0 <= b < b0 + i ==> BloqueLibre(disp[sala], b, dia)
    {
      if !BloqueLibre(disp[sala], b0 + i, dia) {
        return false;
      }
    }
    return true;
  }

  /** The rooms of the index split into occupied and available ones. */
  datatype Particion = Particion(ocupadas: set<string>, disponibles: set<string>)

  /**
   * encontrarSalasDisponiblesEnDiaHora: the rooms of the index split into
   * occupied and available for n blocks from b0 on day dia.
   */
  method EncontrarSalasDisponiblesEnDiaHora(asigs: seq<Asignatura>, dia: int, b0: int, n: nat)
    returns (r: Option<Particion>)
    ensures r.None? <==> !Indexables(asigs)
    ensures r.Some? ==> r.value.ocupadas !! r.value.disponibles
    ensures r.Some? ==> r.value.ocupadas + r.value.disponibles == Disponibilidad(asigs).disp.Keys
    ensures r.Some? ==> forall x :: x in r.value.disponibles <==>
              x in Disponibilidad(asigs).disp && LibreEnBloques(Disponibilidad(asigs).disp[x], dia, b0, n)
  {
    var e := EnumerarSalas(asigs);
    if e.None? {
      return None;
    }
    return Some(Particionar(e.value, dia, b0, n));
  }

  /** The rooms of an index split by whether they are free in the n blocks from b0 on the given day. */
  function Particionar(s: Salas, dia: int, b0: int, n: nat): (p: Particion)
    ensures p.ocupadas !! p.disponibles && p.ocupadas + p.disponibles == s.disp.Keys
    ensures forall x :: x in p.disponibles <==> x in s.disp && LibreEnBloques(s.disp[x], dia, b0, n)
  {
    var disponibles := set x | x in s.disp.Keys && LibreEnBloques(s.disp[x], dia, b0, n);
    Particion(s.disp.Keys - disponibles, disponibles)
  }

  /** Outside the 10 x 7 grid no section uses a room. */
  lemma {:induction false} OcupanteFueraDeRango(flat: seq<Entrada>, r: string, k: Slot)
    requires EntradasIndexables(flat) && k !in SlotsValidos
    ensures Ocupante(flat, r, k) == None
  {
    if flat != [] {
      assert !Usa(flat[|flat| - 1], r, k);
      OcupanteFueraDeRango(flat[..|flat| - 1], r, k);
    }
  }

  /** A label "code paralelo" is never empty, so an occupant is always truthy. */
  lemma {:induction false} OcupanteNoVacio(flat: seq<Entrada>, r: string, k: Slot)
    requires EntradasIndexables(flat)
    ensures Ocupante(flat, r, k).Some? ==> Ocupado(Ocupante(flat, r, k))
  {
    if flat != [] && !Usa(flat[|flat| - 1], r, k) {
      OcupanteNoVacio(flat[..|flat| - 1], r, k);
    }
  }

  /** dict.get on the index reads the occupant, for every slot. */
  lemma ConsultaEsOcupante(asigs: seq<Asignatura>, r: string, k: Slot)
    requires Indexables(asigs) && r in Disponibilidad(asigs).disp
    ensures Consultar(Disponibilidad(asigs).disp[r], k) == Ocupante(Aplanar(asigs), r, k)
  {
    DisponibilidadContenido(asigs, r, k);
    if k !in SlotsValidos {
      OcupanteFueraDeRango(Aplanar(asigs), r, k);
    }
  }

  /**
   * In terms of the stored schedules: a room of the index is occupied
   * exactly when some section uses it in one of the n blocks from b0 on
   * day dia.
   */
  lemma OcupadaSiAlgunaSeccion(asigs: seq<Asignatura>, r: string, dia: int, b0: int, n: nat)
    requires Indexables(asigs)
    requires r in Disponibilidad(asigs).disp
    ensures !LibreEnBloques(Disponibilidad(asigs).disp[r], dia, b0, n) <==>
              exists b, j :: b0 <= b < b0 + n && 0 <= j < |Aplanar(asigs)| && Usa(Aplanar(asigs)[j], r, (b, dia))
  {
    var flat := Aplanar(asigs);
    var t := Disponibilidad(asigs).disp[r];
    if !LibreEnBloques(t, dia, b0, n) {
      var b :| b0 <= b < b0 + n && !BloqueLibre(t, b, dia);
      ConsultaEsOcupante(asigs, r, (b, dia));
      OcupanteExiste(flat, r, (b, dia));
      OcupanteNoVacio(flat, r, (b, dia));
    }
    if exists b, j :: b0 <= b < b0 + n && 0 <= j < |flat| && Usa(flat[j], r, (b, dia)) {
      var b, j :| b0 <= b < b0 + n && 0 <= j < |flat| && Usa(flat[j], r, (b, dia));
      ConsultaEsOcupante(asigs, r, (b, dia));
      OcupanteExiste(flat, r, (b, dia));
      OcupanteNoVacio(flat, r, (b, dia));
      assert !BloqueLibre(t, b, dia);
    }
  }
}
