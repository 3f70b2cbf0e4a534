/**
 * The "now" button of the empty-room form: from the current time and
 * weekday it picks the day (1 = Monday .. 7 = Sunday) and the class block
 * (0..9) to search, ticks exactly that block's checkbox and submits the
 * form. Also the "select all blocks" button. The clock is a parameter.
 */
module Autofill {
  import opened Wrappers

  // ---------------------------------------------------------------------------
  // The weekday

  /**
   * diaPHP: JavaScript's getDay (0 = Sunday .. 6 = Saturday) renumbered
   * to 1 = Monday .. 7 = Sunday. Both operands of % are non-negative here,
   * so JavaScript's remainder and Dafny's agree.
   */
  function DiaPHP(getDay: int): (d: int)
    requires 0 <= getDay <= 6
    ensures 1 <= d <= 7
    ensures getDay == 0 <==> d == 7
    ensures getDay != 0 ==> d == getDay
  {
    ((getDay + 6) % 7) + 1
  }

  /** Different weekdays give different day numbers. */
  lemma DiaPHPInyectivo(a: int, b: int)
    requires 0 <= a <= 6 && 0 <= b <= 6
    requires DiaPHP(a) == DiaPHP(b)
    ensures a == b
  {
  }

  // ---------------------------------------------------------------------------
  // The block table

  /** A class block as minutes since midnight, both ends included. */
  datatype Bloque = Bloque(inicio: int, fin: int)

  /** The table as written: the second block ends at 615 (10:15). */
  const BloquesComoEscritos: seq<Bloque> := [
    Bloque(495, 565), Bloque(580, 615), Bloque(665, 735), Bloque(750, 820), Bloque(880, 950),
    Bloque(965, 1035), Bloque(1050, 1120), Bloque(1135, 1205), Bloque(1220, 1290), Bloque(1305, 1375)
  ]

  /** The table with the second block ending at 650 (10:50), like every other 70-minute block. */
  const BloquesCorregidos: seq<Bloque> := [
    Bloque(495, 565), Bloque(580, 650), Bloque(665, 735), Bloque(750, 820), Bloque(880, 950),
    Bloque(965, 1035), Bloque(1050, 1120), Bloque(1135, 1205), Bloque(1220, 1290), Bloque(1305, 1375)
  ]

  /** Every block is a non-empty interval and each ends before the next begins. */
  predicate Ordenados(bs: seq<Bloque>) {
    (forall i :: 0 <= i < |bs| ==> bs[i].inicio <= bs[i].fin)
    && (forall i :: 0 < i < |bs| ==> bs[i - 1].fin < bs[i].inicio)
  }

  /** The table as written is ordered: its ten blocks run from minute 495 to minute 1375. */
  lemma OrdenadosComoEscritos()
    ensures Ordenados(BloquesComoEscritos)
    ensures |BloquesComoEscritos| == 10
    ensures BloquesComoEscritos[0].inicio == 495 && BloquesComoEscritos[9].fin == 1375
  {
  }

  /** The corrected table is ordered, runs from minute 495 to minute 1375, and each block lasts 70 minutes. */
  lemma OrdenadosCorregidos()
    ensures Ordenados(BloquesCorregidos)
    ensures |BloquesCorregidos| == 10
    ensures BloquesCorregidos[0].inicio == 495 && BloquesCorregidos[9].fin == 1375
    ensures forall k :: 0 <= k < |BloquesCorregidos| ==> BloquesCorregidos[k].fin == BloquesCorregidos[k].inicio + 70
  {
  }

  /** In an ordered table a block ends before any later block begins. */
  lemma {:induction false} Creciente(bs: seq<Bloque>, i: nat, j: nat)
    requires Ordenados(bs)
    requires i < j < |bs|
    ensures bs[i].fin < bs[j].inicio
    decreases j - i
  {
    if j > i + 1 {
      Creciente(bs, i, j - 1);
    }
  }

  /** Blocks never overlap: no minute lies in two different blocks. */
  lemma SinSolape(bs: seq<Bloque>, i: nat, j: nat, hora: int)
    requires Ordenados(bs)
    requires i < |bs| && j < |bs|
    requires bs[i].inicio <= hora <= bs[i].fin && bs[j].inicio <= hora <= bs[j].fin
    ensures i == j
  {
    if i < j {
      Creciente(bs, i, j);
    } else if j < i {
      Creciente(bs, j, i);
    }
  }

  // ---------------------------------------------------------------------------
  // bloqueActual

  /** Block i is chosen at time `hora`: the time lies in it, or in the break just before it. */
  predicate Elige(bs: seq<Bloque>, hora: int, i: nat)
    requires i < |bs|
  {
    (bs[i].inicio <= hora <= bs[i].fin) || (i > 0 && bs[i - 1].fin < hora < bs[i].inicio)
  }

  /** The first block from `desde` on that is chosen at time `hora`, or -1 when none is. */
  function PrimerBloque(bs: seq<Bloque>, hora: int, desde: nat): (r: int)
    requires desde <= |bs|
    ensures r == -1 || desde <= r < |bs|
    ensures r == -1 <==> forall k :: desde <= k < |bs| ==> !Elige(bs, hora, k)
    ensures r != -1 ==> Elige(bs, hora, r) && forall k :: desde <= k < r ==> !Elige(bs, hora, k)
    decreases |bs| - desde
  {
    if desde == |bs| then -1
    else if Elige(bs, hora, desde) then desde
    else PrimerBloque(bs, hora, desde + 1)
  }

  /** The loop with its early break that sets bloqueActual. */
  method BloqueActual(bloques: seq<Bloque>, hora: int) returns (actual: int)
    ensures actual == PrimerBloque(bloques, hora, 0)
  {
    actual := -1;
    var i := 0;
    while i < |bloques|
      invariant 0 <= i <= |bloques|
      invariant actual == -1
      invariant forall k :: 0 <= k < i ==> !Elige(bloques, hora, k)
    {
      var bloque := bloques[i];
      if hora >= bloque.inicio && hora <= bloque.fin {
        assert Elige(bloques, hora, i);
        actual := i;
        break;
      }
      if i > 0 && hora > bloques[i - 1].fin && hora < bloque.inicio {
        assert Elige(bloques, hora, i);
        actual := i;
        break;
      }
      i := i + 1;
    }
  }

  /** In an ordered table at most one block is chosen, so the first chosen block is the only one. */
  lemma EleccionUnica(bs: seq<Bloque>, hora: int, i: nat, j: nat)
    requires Ordenados(bs)
    requires i < |bs| && j < |bs|
    requires Elige(bs, hora, i) && Elige(bs, hora, j)
    ensures i == j
  {
    if i < j && j - 1 > i {
      Creciente(bs, i, j - 1);
    } else if j < i && i - 1 > j {
      Creciente(bs, j, i - 1);
    }
  }

  /** A time inside block i selects block i. */
  lemma EnSuBloque(bs: seq<Bloque>, hora: int, i: nat)
    requires Ordenados(bs)
    requires i < |bs| && bs[i].inicio <= hora <= bs[i].fin
    ensures PrimerBloque(bs, hora, 0) == i
  {
    assert Elige(bs, hora, i);
    var r := PrimerBloque(bs, hora, 0);
    EleccionUnica(bs, hora, r, i);
  }

  /** A time in the break before block i selects block i. */
  lemma EnElHueco(bs: seq<Bloque>, hora: int, i: nat)
    requires Ordenados(bs)
    requires 0 < i < |bs| && bs[i - 1].fin < hora < bs[i].inicio
    ensures PrimerBloque(bs, hora, 0) == i
  {
    assert Elige(bs, hora, i);
    var r := PrimerBloque(bs, hora, 0);
    EleccionUnica(bs, hora, r, i);
  }

  /** Some block up to i is chosen when the time is after the first start and not after the end of block i. */
  lemma {:induction false} AlgunoElegido(bs: seq<Bloque>, hora: int, i: nat)
    requires Ordenados(bs)
    requires i < |bs| && bs[0].inicio <= hora <= bs[i].fin
    ensures exists k :: 0 <= k <= i && Elige(bs, hora, k)
    decreases i
  {
    if i == 0 {
      assert Elige(bs, hora, 0);
    } else if hora > bs[i - 1].fin {
      assert Elige(bs, hora, i);
    } else {
      AlgunoElegido(bs, hora, i - 1);
    }
  }

  /** Before the first start no block is chosen. */
  lemma AntesDeTodo(bs: seq<Bloque>, hora: int, k: nat)
    requires Ordenados(bs)
    requires k < |bs| && hora < bs[0].inicio
    ensures !Elige(bs, hora, k)
  {
    if k > 0 {
      Creciente(bs, 0, k);
      if k > 1 {
        Creciente(bs, 0, k - 1);
      }
    }
  }

  /** After the last end no block is chosen. */
  lemma DespuesDeTodo(bs: seq<Bloque>, hora: int, k: nat)
    requires Ordenados(bs)
    requires k < |bs| && hora > bs[|bs| - 1].fin
    ensures !Elige(bs, hora, k)
  {
    if k < |bs| - 1 {
      Creciente(bs, k, |bs| - 1);
    }
  }

  /** In an ordered table no block is chosen exactly when the time is before the first start or after the last end. */
  lemma SinBloque(bs: seq<Bloque>, hora: int)
    requires Ordenados(bs) && bs != []
    ensures PrimerBloque(bs, hora, 0) == -1 <==> hora < bs[0].inicio || hora > bs[|bs| - 1].fin
  {
    if hora < bs[0].inicio {
      forall k | 0 <= k < |bs| ensures !Elige(bs, hora, k) {
        AntesDeTodo(bs, hora, k);
      }
    } else if hora > bs[|bs| - 1].fin {
      forall k | 0 <= k < |bs| ensures !Elige(bs, hora, k) {
        DespuesDeTodo(bs, hora, k);
      }
    } else {
      AlgunoElegido(bs, hora, |bs| - 1);
    }
  }

  /** With either table, bloqueActual is -1 exactly before 8:15 (minute 495) and after 22:55 (minute 1375). */
  lemma SinClases(hora: int)
    ensures PrimerBloque(BloquesComoEscritos, hora, 0) == -1 <==> hora < 495 || hora > 1375
    ensures PrimerBloque(BloquesCorregidos, hora, 0) == -1 <==> hora < 495 || hora > 1375
  {
    OrdenadosComoEscritos();
    OrdenadosCorregidos();
    SinBloque(BloquesComoEscritos, hora);
    SinBloque(BloquesCorregidos, hora);
  }

  /**
   * At 10:30 (minute 630), inside the second block 9:40-10:50 as the
   * timetables print it, the table as written selects the third block.
   */
  lemma HuecoComoEscrito()
    ensures BloquesCorregidos[1].inicio <= 630 <= BloquesCorregidos[1].fin
    ensures PrimerBloque(BloquesComoEscritos, 630, 0) == 2
  {
    OrdenadosComoEscritos();
    EnElHueco(BloquesComoEscritos, 630, 2);
  }

  /** With the corrected table any time within a block's 70 minutes selects that block. */
  lemma BloqueCorregido(hora: int, i: nat)
    requires i < |BloquesCorregidos|
    requires BloquesCorregidos[i].inicio <= hora <= BloquesCorregidos[i].inicio + 70
    ensures PrimerBloque(BloquesCorregidos, hora, 0) == i
  {
    var bs := BloquesCorregidos;
    OrdenadosCorregidos();
    assert bs[i].fin == bs[i].inicio + 70;
    EnSuBloque(bs, hora, i);
  }

  /** With the corrected table 10:30 selects the second block. */
  lemma HuecoCorregido()
    ensures PrimerBloque(BloquesCorregidos, 630, 0) == 1
  {
    BloqueCorregido(630, 1);
  }

  // ---------------------------------------------------------------------------
  // The form

  const AvisoSeleccion: string := "Primero selecciona un Campus y un Semestre antes de continuar."
  const AvisoSinClases: string := "No hay clases en este momento."

  /**
   * The part of the page the buttons touch: the campus and semester
   * selects, the day select, the block checkboxes (their values are the
   * block numbers 0..9, compared with JavaScript's == to a number), whether
   * the form was submitted, and the last alert shown.
   */
  class Formulario {
    var campus: string
    var semestre: string
    var semestreDeshabilitado: bool
    var dia: int
    var valores: seq<int>
    var marcadas: seq<bool>
    var enviado: bool
    var alerta: Option<string>

    /** One checked flag per checkbox. */
    predicate Valid()
      reads this
    {
      |marcadas| == |valores|
    }

    constructor(campus: string, semestre: string, semestreDeshabilitado: bool, dia: int,
                valores: seq<int>, marcadas: seq<bool>)
      requires |marcadas| == |valores|
      ensures Valid()
      ensures this.campus == campus && this.semestre == semestre
      ensures this.semestreDeshabilitado == semestreDeshabilitado && this.dia == dia
      ensures this.valores == valores && this.marcadas == marcadas
      ensures !enviado && alerta == None
    {
      this.campus := campus;
      this.semestre := semestre;
      this.semestreDeshabilitado := semestreDeshabilitado;
      this.dia := dia;
      this.valores := valores;
      this.marcadas := marcadas;
      enviado := false;
      alerta := None;
    }

    /** A campus and an enabled, non-empty semester are selected. */
    predicate Seleccionado()
      reads this
    {
      campus != "" && !semestreDeshabilitado && semestre != ""
    }

    /**
     * The "now" button at minute `hora` of weekday `getDay`: without a
     * campus and semester, or outside class hours, it only alerts;
     * otherwise it sets the day, ticks exactly the checkbox of the
     * selected block and submits.
     */
    method Autocompletar(hora: int, getDay: int)
      requires Valid()
      requires 0 <= getDay <= 6
      modifies this
      ensures Valid()
      ensures campus == old(campus) && semestre == old(semestre)
      ensures semestreDeshabilitado == old(semestreDeshabilitado) && valores == old(valores)
      ensures !old(Seleccionado()) ==>
                alerta == Some(AvisoSeleccion) && dia == old(dia) && marcadas == old(marcadas) && enviado == old(enviado)
      ensures old(Seleccionado()) && PrimerBloque(BloquesComoEscritos, hora, 0) == -1 ==>
                alerta == Some(AvisoSinClases) && dia == old(dia) && marcadas == old(marcadas) && enviado == old(enviado)
      ensures old(Seleccionado()) && PrimerBloque(BloquesComoEscritos, hora, 0) != -1 ==>
                alerta == old(alerta) && dia == DiaPHP(getDay) && enviado
                && forall i :: 0 <= i < |marcadas| ==> (marcadas[i] <==> valores[i] == PrimerBloque(BloquesComoEscritos, hora, 0))
    {
      if !Seleccionado() {
        alerta := Some(AvisoSeleccion);
        return;
      }
      var diaActual := DiaPHP(getDay);
      var bloqueActual := BloqueActual(BloquesComoEscritos, hora);
      if bloqueActual == -1 {
        alerta := Some(AvisoSinClases);
        return;
      }
      dia := diaActual;
      var nuevas := marcadas;
      for i := 0 to |valores|
        invariant |nuevas| == |valores|
        invariant forall k :: 0 <= k < i ==> (nuevas[k] <==> valores[k] == bloqueActual)
      {
        nuevas := nuevas[i := valores[i] == bloqueActual];
      }
      marcadas := nuevas;
      enviado := true;
    }

    /** The "select all blocks" button: every checkbox ends up checked. */
    method SeleccionarTodos()
      requires Valid()
      modifies this
      ensures Valid()
      ensures valores == old(valores) && forall i :: 0 <= i < |marcadas| ==> marcadas[i]
      ensures campus == old(campus) && semestre == old(semestre) && semestreDeshabilitado == old(semestreDeshabilitado)
      ensures dia == old(dia) && enviado == old(enviado) && alerta == old(alerta)
    {
      var nuevas := marcadas;
      for i := 0 to |valores|
        invariant |nuevas| == |valores|
        invariant forall k :: 0 <= k < i ==> nuevas[k]
      {
        nuevas := nuevas[i := true];
      }
      marcadas := nuevas;
    }
  }

  /** With a campus and semester selected, at 10:00 on a Wednesday the form asks for day 3 and ticks only block 1. */
  method EjemploMiercoles() returns (f: Formulario)
    ensures f.dia == 3 && f.enviado && f.marcadas == [false, true, false]
  {
    f := new Formulario("Casa Central", "2025-1", false, 0, [0, 1, 2], [false, false, false]);
    OrdenadosComoEscritos();
    EnSuBloque(BloquesComoEscritos, 600, 1);
    f.Autocompletar(600, 3);
    assert f.marcadas[0] == false && f.marcadas[1] == true && f.marcadas[2] == false;
  }

  /** As written, at 10:30 on a Wednesday the form ticks block 2 ("5-6") although block 1 ("3-4") runs until 10:50. */
  method EjemploHueco() returns (f: Formulario)
    ensures f.dia == 3 && f.enviado && f.marcadas == [false, false, true]
  {
    f := new Formulario("Casa Central", "2025-1", false, 0, [0, 1, 2], [false, false, false]);
    HuecoComoEscrito();
    f.Autocompletar(630, 3);
    assert f.marcadas[0] == false && f.marcadas[1] == false && f.marcadas[2] == true;
  }
}
