/**
 * The subject search page: the two text normalisers, the request
 * parameters, the choice between a section search ("MAT021-1") and a free
 * text search, the grouping of the flat result rows into
 * subject -> section -> schedule, and the 10 x 7 timetable of a section.
 * The SQL query itself is left to the database: its rows are an input.
 */
module BuscarAsignaturas {
  import opened Wrappers
  import opened Text
  import opened SedonaWeb

  // ---------------------------------------------------------------------------
  // normalizar_exacto

  /** Characters kept by preg_replace('/[^a-z0-9]/', '', ...). */
  predicate EsExacto(c: char) { IsLower(c) || IsDigit(c) }

  /** preg_replace('/[^a-z0-9]/', '', t) */
  function SoloExactos(t: string): (r: string)
    ensures |r| <= |t|
    ensures forall i :: 0 <= i < |r| ==> EsExacto(r[i])
    decreases |t|
  {
    if t == [] then []
    else (if EsExacto(t[0]) then [t[0]] else []) + SoloExactos(t[1..])
  }

  /** normalizar_exacto: lower-case, then drop everything outside [a-z0-9]. */
  function NormalizarExacto(texto: string): (r: string)
    ensures |r| <= |texto|
    ensures forall i :: 0 <= i < |r| ==> EsExacto(r[i])
  {
    SoloExactos(Lower(texto))
  }

  /** The ASCII letters and digits of t, in order and with their case. */
  function Alfanumericos(t: string): string
    decreases |t|
  {
    if t == [] then []
    else (if IsAlnum(t[0]) then [t[0]] else []) + Alfanumericos(t[1..])
  }

  /** Lower-casing distributes over concatenation. */
  lemma LowerConcat(a: string, b: string)
    ensures Lower(a + b) == Lower(a) + Lower(b)
  {
  }

  /**
   * Normalising is the same as keeping the letters and digits of the
   * original text and lower-casing them: nothing else survives and no
   * letter or digit is lost.
   */
  lemma {:induction false} ExactoComoFiltro(t: string)
    ensures NormalizarExacto(t) == Lower(Alfanumericos(t))
    decreases |t|
  {
    if t != [] {
      ExactoComoFiltro(t[1..]);
      assert Lower(t)[1..] == Lower(t[1..]);
      var cabeza := if IsAlnum(t[0]) then [t[0]] else [];
      LowerConcat(cabeza, Alfanumericos(t[1..]));
      assert EsExacto(LowerChar(t[0])) <==> IsAlnum(t[0]);
      assert Lower(cabeza) == if EsExacto(LowerChar(t[0])) then [LowerChar(t[0])] else [];
    }
  }

  /** A text already made of [a-z0-9] is left as it is. */
  lemma {:induction false} ExactoFijo(t: string)
    requires forall i :: 0 <= i < |t| ==> EsExacto(t[i])
    ensures NormalizarExacto(t) == t
    decreases |t|
  {
    assert Lower(t) == t;
    if t != [] {
      ExactoFijo(t[1..]);
      assert Lower(t[1..]) == t[1..];
    }
  }

  /** Normalising twice is normalising once. */
  lemma ExactoIdempotente(t: string)
    ensures NormalizarExacto(NormalizarExacto(t)) == NormalizarExacto(t)
  {
    ExactoFijo(NormalizarExacto(t));
  }

  // ---------------------------------------------------------------------------
  // normalizar_texto

  /** Length of the longest prefix of s without PCRE whitespace. */
  function Palabra(s: string): (n: nat)
    ensures n <= |s|
    ensures forall k :: 0 <= k < n ==> !IsPcreSpace(s[k])
    ensures n == |s| || IsPcreSpace(s[n])
  {
    if s == [] || IsPcreSpace(s[0]) then 0 else 1 + Palabra(s[1..])
  }

  /** preg_split('/\s+/', s): the pieces between runs of whitespace; a leading or trailing run gives an empty piece. */
  function PartirBlancos(s: string): (r: seq<string>)
    ensures |r| >= 1
    ensures forall i :: 0 <= i < |r| ==> SinBlancos(r[i])
    ensures SinMayusculas(s) ==> forall i :: 0 <= i < |r| ==> SinMayusculas(r[i])
    decreases |s|
  {
    var n := Palabra(s);
    if n == |s| then [s]
    else
      var m := n + Blancos(s[n..]);
      var resto := PartirBlancos(s[m..]);
      assert SinMayusculas(s) ==> SinMayusculas(s[..n]) && SinMayusculas(s[m..]);
      [s[..n]] + resto
  }

  /** No PCRE whitespace in w. */
  predicate SinBlancos(w: string) {
    forall k :: 0 <= k < |w| ==> !IsPcreSpace(w[k])
  }

  /** No upper-case ASCII letter in w. */
  predicate SinMayusculas(w: string) {
    forall k :: 0 <= k < |w| ==> !IsUpper(w[k])
  }

  /** A piece that normalizar_texto keeps: no whitespace, no upper-case letter. */
  predicate Limpia(w: string) {
    SinBlancos(w) && SinMayusculas(w)
  }

  /** Joining clean pieces with a clean separator gives a clean text. */
  lemma {:induction false} JoinLimpio(ws: seq<string>, c: char)
    requires |ws| >= 1 && !IsPcreSpace(c) && !IsUpper(c)
    requires forall i :: 0 <= i < |ws| ==> Limpia(ws[i])
    ensures Limpia(Join(ws, c))
    decreases |ws|
  {
    if |ws| > 1 {
      JoinLimpio(ws[1..], c);
    }
  }

  /** Joining pieces without upper-case letters with a separator that is not one gives none either. */
  lemma {:induction false} JoinSinMayusculas(ws: seq<string>, c: char)
    requires |ws| >= 1 && !IsUpper(c)
    requires forall i :: 0 <= i < |ws| ==> Limpia(ws[i])
    ensures forall k :: 0 <= k < |Join(ws, c)| ==> !IsUpper(Join(ws, c)[k])
    decreases |ws|
  {
    if |ws| > 1 {
      JoinSinMayusculas(ws[1..], c);
    }
  }

  /** normalizar_texto: '%' + the lower-cased words joined by '%' + '%'. */
  function NormalizarTexto(texto: string): (r: string)
    ensures |r| >= 2 && r[0] == '%' && r[|r| - 1] == '%'
    ensures Limpia(r)
  {
    var partes := PartirBlancos(Lower(texto));
    assert SinMayusculas(Lower(texto));
    JoinLimpio(partes, '%');
    "%" + Join(partes, '%') + "%"
  }

  /** A word list joined by single spaces starts with its first word. */
  lemma {:induction false} JoinEmpieza(ws: seq<string>, c: char)
    requires |ws| >= 1
    ensures |Join(ws, c)| >= |ws[0]| && Join(ws, c)[..|ws[0]|] == ws[0]
    decreases |ws|
  {
  }

  /** Words separated by single spaces are split back into the same words. */
  lemma {:induction false} PartirJoin(ws: seq<string>)
    requires |ws| >= 1
    requires forall i :: 0 <= i < |ws| ==> ws[i] != [] && Limpia(ws[i])
    ensures PartirBlancos(Join(ws, ' ')) == ws
    decreases |ws|
  {
    if |ws| == 1 {
      assert Palabra(ws[0]) == |ws[0]|;
    } else {
      var cola := ws[1..];
      var resto := Join(cola, ' ');
      assert Join(ws, ' ') == ws[0] + [' '] + resto;
      JoinEmpieza(cola, ' ');
      assert cola[0] != [] && SinBlancos(cola[0]);
      assert resto[0] == cola[0][0];
      PartirPaso(ws[0], resto);
      assert forall i :: 0 <= i < |cola| ==> cola[i] == ws[i + 1];
      PartirJoin(cola);
      assert ws == [ws[0]] + cola;
    }
  }

  /** A clean word, one space, then text that starts with no blank: the word is the first piece. */
  lemma PartirPaso(w: string, resto: string)
    requires w != [] && Limpia(w) && resto != [] && !IsPcreSpace(resto[0])
    ensures PartirBlancos(w + [' '] + resto) == [w] + PartirBlancos(resto)
  {
    var s := w + [' '] + resto;
    PalabraEspacio(w, resto);
    assert s[..|w|] == w;
    assert s[|w| + 1..] == resto;
  }

  /** In a clean word, one space, then text that starts with no blank, the word and the run of blanks are as long as they look. */
  lemma PalabraEspacio(w: string, resto: string)
    requires SinBlancos(w) && resto != [] && !IsPcreSpace(resto[0])
    ensures var s := w + [' '] + resto; Palabra(s) == |w| && Blancos(s[|w|..]) == 1
  {
    var s := w + [' '] + resto;
    assert forall k :: 0 <= k < |w| ==> s[k] == w[k];
    PalabraExacta(s, |w|);
    var t := s[|w|..];
    assert t[0] == ' ' && t[1] == resto[0];
    assert Blancos(t[1..]) == 0;
  }

  /** The word ends at the first whitespace character. */
  lemma {:induction false} PalabraExacta(s: string, n: nat)
    requires n <= |s|
    requires forall k :: 0 <= k < n ==> !IsPcreSpace(s[k])
    requires n == |s| || IsPcreSpace(s[n])
    ensures Palabra(s) == n
    decreases n
  {
    if n > 0 {
      PalabraExacta(s[1..], n - 1);
    }
  }

  /** Lower-casing a text without upper-case letters changes nothing. */
  lemma LowerFijo(s: string)
    requires forall k :: 0 <= k < |s| ==> !IsUpper(s[k])
    ensures Lower(s) == s
  {
  }

  /** For lower-case words typed with single spaces the pattern is the words between '%' signs, in order. */
  lemma TextoDePalabras(ws: seq<string>)
    requires |ws| >= 1
    requires forall i :: 0 <= i < |ws| ==> ws[i] != [] && Limpia(ws[i])
    ensures NormalizarTexto(Join(ws, ' ')) == "%" + Join(ws, '%') + "%"
  {
    JoinSinMayusculas(ws, ' ');
    LowerFijo(Join(ws, ' '));
    PartirJoin(ws);
  }

  // ---------------------------------------------------------------------------
  // cargar_parametros

  datatype Parametros = Parametros(busqueda: string, campus: string, semestre: string, ocultarVacios: bool)

  /** Values FILTER_VALIDATE_BOOLEAN reads as true (after the filter's own trim, in any case). */
  predicate EsVerdadero(v: string) {
    Lower(FilterTrim(v)) in {"1", "true", "on", "yes"}
  }

  /** ocultar_vacios: true only for a value read as true; absent or anything else gives false. */
  function OcultarVacios(v: Option<string>): (r: bool)
    ensures r <==> v.Some? && EsVerdadero(v.value)
  {
    match v
    case None => false
    case Some(s) => EsVerdadero(s)
  }

  /** The filter's trim keeps a NUL, so "yes" followed by NUL is not read as true; surrounding blanks are dropped. */
  lemma OcultarVaciosBordes(nul: string, blancos: string)
    requires nul == "yes\0" && blancos == " Yes\n"
    ensures !OcultarVacios(Some(nul)) && OcultarVacios(Some(blancos))
  {
    assert FilterTrim(nul) == nul;
    assert |Lower(nul)| == 4;
    assert FilterTrim(blancos) == FilterTrim(blancos[1..]) == FilterTrim("Yes") == "Yes";
    assert Lower("Yes")[0] == 'y';
    assert Lower("Yes") == "yes";
  }

  /**
   * A search that is a code, separators and a run of digits up to its end
   * asks for exactly that run as the section: "MAT021-200" gives 200, never
   * a shorter prefix such as 2 that LIKE '2%' would widen.
   */
  lemma FiltroParaleloEntero(q: string, i: nat, j: nat)
    requires FormaParalelo(q, i, j, |q|)
    ensures FiltroBusqueda(q) == PorParalelo(NormalizarExacto(q[..i]), q[j..])
  {
    var f := FiltroBusqueda(q);
    var i', j', k' :| FormaParalelo(q, i', j', k') && (k' == |q| || !IsDigit(q[k']))
                      && f.codigo == NormalizarExacto(q[..i']) && f.paralelo == q[j'..k'];
    FormaUnica(q, i, j, i', j', k');
    assert q[j'..k'] == q[j..];
    assert f == PorParalelo(f.codigo, f.paralelo);
  }

  /** The section shape splits a text in one way only once the digit run is maximal. */
  lemma FormaUnica(q: string, i: int, j: int, i': int, j': int, k': int)
    requires FormaParalelo(q, i, j, |q|) && FormaParalelo(q, i', j', k') && (k' == |q| || !IsDigit(q[k']))
    ensures i' == i && j' == j && k' == |q|
  {
    assert Separador(q[i']) && Separador(q[i]);
    if j' < j {
      assert Separador(q[j']);
      DigitoNoSeparador(q[j']);
    } else if j < j' {
      assert Separador(q[j]);
      DigitoNoSeparador(q[j]);
    }
  }

  lemma DigitoNoSeparador(c: char)
    requires IsDigit(c)
    ensures !Separador(c)
  {
  }

  /** cargar_parametros: the search text, campus and semester must all be present and truthy. */
  function CargarParametros(codigo: Option<string>, campus: Option<string>, semestre: Option<string>,
                            ocultar: Option<string>): (r: Result<Parametros, string>)
    ensures r.Ok? <==> Truthy(codigo) && Truthy(campus) && Truthy(semestre)
    ensures r.Ok? ==> r.value == Parametros(codigo.value, campus.value, semestre.value, OcultarVacios(ocultar))
  {
    if !Truthy(codigo) || !Truthy(campus) || !Truthy(semestre) then Err("Parámetros incompletos o inválidos")
    else Ok(Parametros(codigo.value, campus.value, semestre.value, OcultarVacios(ocultar)))
  }

  /** A missing search text is rejected; "yes" hides empty rows, an unreadable value does not. */
  lemma ParametrosEjemplos()
    ensures CargarParametros(None, Some("Casa Central"), Some("2024-2"), None).Err?
    ensures CargarParametros(Some("0"), Some("Casa Central"), Some("2024-2"), None).Err?
    ensures CargarParametros(Some("MAT021"), Some("Casa Central"), Some("2024-2"), None).value.ocultarVacios == false
    ensures CargarParametros(Some("MAT021"), Some("Casa Central"), Some("2024-2"), Some("yes")).value.ocultarVacios == true
    ensures CargarParametros(Some("MAT021"), Some("Casa Central"), Some("2024-2"), Some("maybe")).value.ocultarVacios == false
  {
    assert PhpTrim("yes") == "yes";
    LowerFijo("yes");
    assert PhpTrim("maybe") == "maybe";
    LowerFijo("maybe");
  }

  // ---------------------------------------------------------------------------
  // Section search: '/^([^\s\-]+)[\s\-]+(\d+)/'

  predicate Separador(c: char) { IsPcreSpace(c) || c == '-' }

  /** Length of the longest prefix of s without separators. */
  function Token(s: string): (n: nat)
    ensures n <= |s|
    ensures forall k :: 0 <= k < n ==> !Separador(s[k])
    ensures n == |s| || Separador(s[n])
  {
    if s == [] || Separador(s[0]) then 0 else 1 + Token(s[1..])
  }

  /** Length of the longest prefix of s made of separators. */
  function Separadores(s: string): (n: nat)
    ensures n <= |s|
    ensures forall k :: 0 <= k < n ==> Separador(s[k])
    ensures n == |s| || !Separador(s[n])
  {
    if s != [] && Separador(s[0]) then 1 + Separadores(s[1..]) else 0
  }

  /** Length of the longest prefix of s made of digits. */
  function Digitos(s: string): (n: nat)
    ensures n <= |s|
    ensures forall k :: 0 <= k < n ==> IsDigit(s[k])
    ensures n == |s| || !IsDigit(s[n])
  {
    if s != [] && IsDigit(s[0]) then 1 + Digitos(s[1..]) else 0
  }

  /** q[..i] is a token, q[i..j] separators and q[j..k] digits, each part non-empty. */
  predicate FormaParalelo(q: string, i: int, j: int, k: int) {
    0 < i < j < k <= |q|
    && (forall t :: 0 <= t < i ==> !Separador(q[t]))
    && (forall t :: i <= t < j ==> Separador(q[t]))
    && (forall t :: j <= t < k ==> IsDigit(q[t]))
  }

  /** The match of the section pattern: the code and the (greedy) digits, or None. */
  function DetectarParalelo(q: string): (m: Option<(string, string)>)
    ensures m.Some? ==> exists i, j, k :: FormaParalelo(q, i, j, k) && m.value == (q[..i], q[j..k])
                                          && (k == |q| || !IsDigit(q[k]))
  {
    var i := Token(q);
    var j := i + Separadores(q[i..]);
    var k := j + Digitos(q[j..]);
    if 0 < i < j < k then
      assert FormaParalelo(q, i, j, k);
      Some((q[..i], q[j..k]))
    else
      None
  }

  /** The token ends at the first separator. */
  lemma {:induction false} TokenExacto(s: string, n: nat)
    requires n < |s| && Separador(s[n])
    requires forall k :: 0 <= k < n ==> !Separador(s[k])
    ensures Token(s) == n
    decreases n
  {
    if n > 0 {
      TokenExacto(s[1..], n - 1);
    }
  }

  /** The separator run ends at the first non-separator. */
  lemma {:induction false} SeparadoresExacto(s: string, n: nat)
    requires n < |s| && !Separador(s[n])
    requires forall k :: 0 <= k < n ==> Separador(s[k])
    ensures Separadores(s) == n
    decreases n
  {
    if n > 0 {
      SeparadoresExacto(s[1..], n - 1);
    }
  }

  /** Whenever the text has the section shape, the pattern matches. */
  lemma FormaDetectada(q: string)
    ensures (exists i, j, k :: FormaParalelo(q, i, j, k)) ==> DetectarParalelo(q).Some?
  {
    if exists i, j, k :: FormaParalelo(q, i, j, k) {
      var i, j, k :| FormaParalelo(q, i, j, k);
      TokenExacto(q, i);
      SeparadoresExacto(q[i..], j - i);
      assert q[j..][0] == q[j];
    }
  }

  /** Which query the page runs: an exact section, or a LIKE pattern over code, name and professor. */
  datatype Filtro = PorParalelo(codigo: string, paralelo: string) | PorTexto(patron: string)

  /** The filter buscar_asignaturas builds from the search text. */
  function FiltroBusqueda(busqueda: string): (f: Filtro)
    ensures f.PorParalelo? <==> exists i, j, k :: FormaParalelo(busqueda, i, j, k)
    ensures f.PorParalelo? ==> exists i, j, k :: FormaParalelo(busqueda, i, j, k) && (k == |busqueda| || !IsDigit(busqueda[k]))
                                 && f.codigo == NormalizarExacto(busqueda[..i]) && f.paralelo == busqueda[j..k]
    ensures f.PorTexto? ==> f.patron == NormalizarTexto(busqueda)
  {
    match DetectarParalelo(busqueda)
    case Some(m) =>
      assert exists i, j, k :: FormaParalelo(busqueda, i, j, k) && m == (busqueda[..i], busqueda[j..k])
                               && (k == |busqueda| || !IsDigit(busqueda[k]));
      ExactoFijo(m.1);
      PorParalelo(NormalizarExacto(m.0), NormalizarExacto(m.1))
    case None =>
      FormaDetectada(busqueda);
      PorTexto(NormalizarTexto(busqueda))
  }

  // ---------------------------------------------------------------------------
  // explode(', ', ...)

  /** PHP's explode(sep, s): the pieces between occurrences of sep, found left to right. */
  function Explode(s: string, sep: string): (r: seq<string>)
    requires sep != []
    ensures |r| >= 1
    decreases |s|
  {
    if StartsWith(s, sep) then [""] + Explode(s[|sep|..], sep)
    else if s == [] then [""]
    else
      var resto := Explode(s[1..], sep);
      [[s[0]] + resto[0]] + resto[1..]
  }

  /** PHP's implode(sep, r). */
  function Implode(r: seq<string>, sep: string): string
    requires |r| >= 1
  {
    if |r| == 1 then r[0] else r[0] + sep + Implode(r[1..], sep)
  }

  /** An empty first piece contributes just the separator. */
  lemma ImplodeVacia(resto: seq<string>, sep: string)
    requires |resto| >= 1
    ensures Implode([""] + resto, sep) == sep + Implode(resto, sep)
  {
    assert ([""] + resto)[1..] == resto;
  }

  /** A character glued to the first piece comes first in the joined text. */
  lemma ImplodeCabeza(c: char, resto: seq<string>, sep: string)
    requires |resto| >= 1
    ensures Implode([[c] + resto[0]] + resto[1..], sep) == [c] + Implode(resto, sep)
  {
    var r := [[c] + resto[0]] + resto[1..];
    if |resto| > 1 {
      assert r[1..] == resto[1..];
      var cola := Implode(resto[1..], sep);
      assert Implode(r, sep) == ([c] + resto[0]) + sep + cola;
      assert ([c] + resto[0]) + sep + cola == [c] + (resto[0] + sep + cola);
    }
  }

  /** Exploding loses nothing: imploding the pieces gives the text back. */
  lemma {:induction false} ImplodeExplode(s: string, sep: string)
    requires sep != []
    ensures Implode(Explode(s, sep), sep) == s
    decreases |s|
  {
    if StartsWith(s, sep) {
      var resto := Explode(s[|sep|..], sep);
      assert Explode(s, sep) == [""] + resto;
      ImplodeExplode(s[|sep|..], sep);
      ImplodeVacia(resto, sep);
      assert s == sep + s[|sep|..];
    } else if s != [] {
      var resto := Explode(s[1..], sep);
      assert Explode(s, sep) == [[s[0]] + resto[0]] + resto[1..];
      ImplodeExplode(s[1..], sep);
      ImplodeCabeza(s[0], resto, sep);
      assert s == [s[0]] + s[1..];
    }
  }

  // ---------------------------------------------------------------------------
  // Grouping in mostrar_resultados

  /** One row of the search query (NULL columns are None). */
  datatype Fila = Fila(codigo: string, nombre: string, departamento: string, paralelo: string, cupos: int,
                       profesores: Option<string>, dia: Option<int>, bloque: Option<int>, sala: Option<string>)

  /** One schedule entry of a section. */
  datatype Clase = Clase(dia: int, bloque: int, sala: Option<string>)

  datatype Seccion = Seccion(cupos: int, profesores: seq<string>, horario: seq<Clase>)

  /** A subject with its sections by paralelo, and the order they were first seen in. */
  datatype Ramo = Ramo(nombre: string, departamento: string, secciones: map<string, Seccion>, orden: seq<string>)

  /** $agrupadas: subjects by code, and the order they were first seen in. */
  datatype Agrupadas = Agrupadas(ramos: map<string, Ramo>, orden: seq<string>)

  /** A database integer used as a PHP condition: NULL and 0 are false. */
  predicate EnteroTruthy(v: Option<int>) { v.Some? && v.value != 0 }

  /** explode(', ', profesores), with NULL read as the empty string. */
  function ListaProfesores(p: Option<string>): (r: seq<string>)
    ensures |r| >= 1 && Implode(r, ", ") == if p.None? then "" else p.value
  {
    var s := if p.None? then "" else p.value;
    ImplodeExplode(s, ", ");
    Explode(s, ", ")
  }

  /** The row is a schedule entry: both its day and its block are truthy. */
  predicate TieneHorario(f: Fila) { EnteroTruthy(f.dia) && EnteroTruthy(f.bloque) }

  function ClaseDe(f: Fila): Clase
    requires TieneHorario(f)
  {
    Clase(f.dia.value, f.bloque.value, f.sala)
  }

  /** The subject entry for the row's code, created from the row when absent. */
  function ConRamo(g: Agrupadas, f: Fila): (h: Agrupadas)
    ensures f.codigo in h.ramos
    ensures forall c :: c in h.ramos <==> c in g.ramos || c == f.codigo
    ensures forall c :: c in g.ramos ==> h.ramos[c] == g.ramos[c]
    ensures f.codigo !in g.ramos ==> h.ramos[f.codigo] == Ramo(f.nombre, f.departamento, map[], [])
  {
    if f.codigo in g.ramos then g
    else Agrupadas(g.ramos[f.codigo := Ramo(f.nombre, f.departamento, map[], [])], g.orden + [f.codigo])
  }

  /** The section entry for the row's paralelo, created from the row when absent. */
  function ConSeccion(r: Ramo, f: Fila): (q: Ramo)
    ensures q.nombre == r.nombre && q.departamento == r.departamento
    ensures f.paralelo in q.secciones
    ensures forall p :: p in q.secciones <==> p in r.secciones || p == f.paralelo
    ensures forall p :: p in r.secciones ==> q.secciones[p] == r.secciones[p]
    ensures f.paralelo !in r.secciones ==> q.secciones[f.paralelo] == Seccion(f.cupos, ListaProfesores(f.profesores), [])
  {
    if f.paralelo in r.secciones then r
    else r.(secciones := r.secciones[f.paralelo := Seccion(f.cupos, ListaProfesores(f.profesores), [])],
            orden := r.orden + [f.paralelo])
  }

  /** The row's schedule entry appended to its section, when its day and block are truthy. */
  function ConClase(r: Ramo, f: Fila): (q: Ramo)
    requires f.paralelo in r.secciones
    ensures q.nombre == r.nombre && q.departamento == r.departamento && q.orden == r.orden
    ensures forall p :: p in q.secciones <==> p in r.secciones
    ensures forall p :: p in r.secciones && p != f.paralelo ==> q.secciones[p] == r.secciones[p]
    ensures q.secciones[f.paralelo].cupos == r.secciones[f.paralelo].cupos
    ensures q.secciones[f.paralelo].profesores == r.secciones[f.paralelo].profesores
    ensures q.secciones[f.paralelo].horario == r.secciones[f.paralelo].horario + if TieneHorario(f) then [ClaseDe(f)] else []
  {
    var sec := r.secciones[f.paralelo];
    if TieneHorario(f) then r.(secciones := r.secciones[f.paralelo := sec.(horario := sec.horario + [ClaseDe(f)])])
    else r
  }

  /** One turn of the foreach loop of mostrar_resultados. */
  function Agregar(g: Agrupadas, f: Fila): Agrupadas {
    var g1 := ConRamo(g, f);
    g1.(ramos := g1.ramos[f.codigo := ConClase(ConSeccion(g1.ramos[f.codigo], f), f)])
  }

  /** $agrupadas after the given rows. */
  function Agrupar(filas: seq<Fila>): Agrupadas
    decreases |filas|
  {
    if filas == [] then Agrupadas(map[], []) else Agregar(Agrupar(filas[..|filas| - 1]), filas[|filas| - 1])
  }

  /** The grouping loop of mostrar_resultados. */
  method AgruparResultados(resultados: seq<Fila>) returns (agrupadas: Agrupadas)
    ensures agrupadas == Agrupar(resultados)
  {
    agrupadas := Agrupadas(map[], []);
    for i := 0 to |resultados|
      invariant agrupadas == Agrupar(resultados[..i])
    {
      assert resultados[..i + 1][..i] == resultados[..i];
      var row := resultados[i];
      var codigo := row.codigo;
      if codigo !in agrupadas.ramos {
        agrupadas := agrupadas.(ramos := agrupadas.ramos[codigo := Ramo(row.nombre, row.departamento, map[], [])],
                                orden := agrupadas.orden + [codigo]);
      }
      var ramo := agrupadas.ramos[codigo];
      if row.paralelo !in ramo.secciones {
        ramo := ramo.(secciones := ramo.secciones[row.paralelo := Seccion(row.cupos, ListaProfesores(row.profesores), [])],
                      orden := ramo.orden + [row.paralelo]);
      }
      if EnteroTruthy(row.dia) && EnteroTruthy(row.bloque) {
        var sec := ramo.secciones[row.paralelo];
        ramo := ramo.(secciones := ramo.secciones[row.paralelo := sec.(horario := sec.horario + [Clase(row.dia.value, row.bloque.value, row.sala)])]);
      }
      agrupadas := agrupadas.(ramos := agrupadas.ramos[codigo := ramo]);
    }
    assert resultados[..|resultados|] == resultados;
  }

  /** Each code is listed once and only codes with an entry are listed; the same for paralelos within a subject. */
  ghost predicate BienFormada(g: Agrupadas) {
    (forall c :: c in g.ramos <==> c in g.orden) && SinRepetir(g.orden)
    && forall c :: c in g.ramos ==> RamoBienFormado(g.ramos[c])
  }

  /** Each paralelo of the subject is listed once, and only paralelos with an entry are listed. */
  ghost predicate RamoBienFormado(r: Ramo) {
    (forall p :: p in r.secciones <==> p in r.orden) && SinRepetir(r.orden)
  }

  lemma ConRamoBienFormada(g: Agrupadas, f: Fila)
    requires BienFormada(g)
    ensures BienFormada(ConRamo(g, f))
  {
    if f.codigo !in g.ramos {
      SinRepetirMas(g.orden, f.codigo);
    }
  }

  lemma ConSeccionBienFormado(r: Ramo, f: Fila)
    requires RamoBienFormado(r)
    ensures RamoBienFormado(ConSeccion(r, f))
  {
    if f.paralelo !in r.secciones {
      SinRepetirMas(r.orden, f.paralelo);
    }
  }

  lemma AgregarBienFormada(g: Agrupadas, f: Fila)
    requires BienFormada(g)
    ensures BienFormada(Agregar(g, f))
  {
    var g1 := ConRamo(g, f);
    ConRamoBienFormada(g, f);
    var r := ConSeccion(g1.ramos[f.codigo], f);
    ConSeccionBienFormado(g1.ramos[f.codigo], f);
    var q := ConClase(r, f);
    assert q.orden == r.orden;
    assert RamoBienFormado(q);
    var g2 := g1.(ramos := g1.ramos[f.codigo := q]);
    assert Agregar(g, f) == g2;
    assert g2.orden == g1.orden;
    assert forall c :: c in g2.ramos <==> c in g1.ramos;
    forall c | c in g2.ramos
      ensures RamoBienFormado(g2.ramos[c])
    {
      if c != f.codigo {
        assert g2.ramos[c] == g1.ramos[c];
      }
    }
  }

  /** Grouping never lists a code or a paralelo twice. */
  lemma {:induction false} AgruparBienFormada(filas: seq<Fila>)
    ensures BienFormada(Agrupar(filas))
    decreases |filas|
  {
    if filas != [] {
      AgruparBienFormada(filas[..|filas| - 1]);
      AgregarBienFormada(Agrupar(filas[..|filas| - 1]), filas[|filas| - 1]);
    }
  }

  /** What one row adds: its code, and its paralelo under that code; nothing else. */
  lemma AgregarPresentes(g: Agrupadas, f: Fila, c: string, p: string)
    ensures c in Agregar(g, f).ramos <==> c in g.ramos || c == f.codigo
    ensures c in Agregar(g, f).ramos ==>
              (p in Agregar(g, f).ramos[c].secciones <==>
               (c in g.ramos && p in g.ramos[c].secciones) || (c == f.codigo && p == f.paralelo))
  {
  }

  /** What one row does to the subject c and its section p: kept when present, taken from the row when new. */
  lemma AgregarHechos(g: Agrupadas, f: Fila, c: string, p: string)
    requires c in Agregar(g, f).ramos
    ensures var r := Agregar(g, f).ramos[c];
            (c in g.ramos ==> r.nombre == g.ramos[c].nombre && r.departamento == g.ramos[c].departamento)
            && (c !in g.ramos ==> r.nombre == f.nombre && r.departamento == f.departamento)
    ensures var r := Agregar(g, f).ramos[c];
            p in r.secciones && c in g.ramos && p in g.ramos[c].secciones ==>
              r.secciones[p].cupos == g.ramos[c].secciones[p].cupos
              && r.secciones[p].profesores == g.ramos[c].secciones[p].profesores
              && r.secciones[p].horario == g.ramos[c].secciones[p].horario
                                           + if f.codigo == c && f.paralelo == p && TieneHorario(f) then [ClaseDe(f)] else []
    ensures var r := Agregar(g, f).ramos[c];
            p in r.secciones && !(c in g.ramos && p in g.ramos[c].secciones) ==>
              c == f.codigo && p == f.paralelo
              && r.secciones[p] == Seccion(f.cupos, ListaProfesores(f.profesores), if TieneHorario(f) then [ClaseDe(f)] else [])
  {
  }

  /** A subject is listed exactly when some row carries its code. */
  lemma {:induction false} AgruparRamos(filas: seq<Fila>, c: string)
    ensures c in Agrupar(filas).ramos <==> exists i :: 0 <= i < |filas| && filas[i].codigo == c
    decreases |filas|
  {
    if filas != [] {
      var n := |filas| - 1;
      var previas := filas[..n];
      AgruparRamos(previas, c);
      AgregarPresentes(Agrupar(previas), filas[n], c, "");
      if exists i :: 0 <= i < n && previas[i].codigo == c {
        var i :| 0 <= i < n && previas[i].codigo == c;
        assert filas[i] == previas[i];
      }
      if exists i :: 0 <= i < |filas| && filas[i].codigo == c {
        var i :| 0 <= i < |filas| && filas[i].codigo == c;
        assert i == n || previas[i].codigo == c;
      }
    }
  }

  /** A section is listed under its subject exactly when some row carries both its code and its paralelo. */
  lemma {:induction false} AgruparSecciones(filas: seq<Fila>, c: string, p: string)
    requires c in Agrupar(filas).ramos
    ensures p in Agrupar(filas).ramos[c].secciones <==>
              exists i :: 0 <= i < |filas| && filas[i].codigo == c && filas[i].paralelo == p
    decreases |filas|
  {
    var n := |filas| - 1;
    var previas := filas[..n];
    AgregarPresentes(Agrupar(previas), filas[n], c, p);
    if c in Agrupar(previas).ramos {
      AgruparSecciones(previas, c, p);
    } else {
      AgruparRamos(previas, c);
    }
    if exists i :: 0 <= i < n && previas[i].codigo == c && previas[i].paralelo == p {
      var i :| 0 <= i < n && previas[i].codigo == c && previas[i].paralelo == p;
      assert filas[i] == previas[i];
      AgruparRamos(previas, c);
    }
    if exists i :: 0 <= i < |filas| && filas[i].codigo == c && filas[i].paralelo == p {
      var i :| 0 <= i < |filas| && filas[i].codigo == c && filas[i].paralelo == p;
      assert i == n || (previas[i].codigo == c && previas[i].paralelo == p);
    }
  }

  /** Row i is the first row with code c. */
  predicate PrimeraDeRamo(filas: seq<Fila>, c: string, i: int) {
    0 <= i < |filas| && filas[i].codigo == c && forall j :: 0 <= j < i ==> filas[j].codigo != c
  }

  /** Row i is the first row with code c and paralelo p. */
  predicate PrimeraDeSeccion(filas: seq<Fila>, c: string, p: string, i: int) {
    0 <= i < |filas| && filas[i].codigo == c && filas[i].paralelo == p
    && forall j :: 0 <= j < i ==> filas[j].codigo != c || filas[j].paralelo != p
  }

  /** A first row stays first when rows are added after it. */
  lemma PrimeraDeRamoMas(filas: seq<Fila>, c: string, i: int)
    requires filas != [] && PrimeraDeRamo(filas[..|filas| - 1], c, i)
    ensures PrimeraDeRamo(filas, c, i)
  {
    assert forall j :: 0 <= j <= i ==> filas[j] == filas[..|filas| - 1][j];
  }

  /** The last row is the first with its code when no earlier row has it. */
  lemma PrimeraDeRamoUltima(filas: seq<Fila>, previas: seq<Fila>, c: string)
    requires filas != [] && previas == filas[..|filas| - 1] && filas[|filas| - 1].codigo == c
    requires !exists i :: 0 <= i < |previas| && previas[i].codigo == c
    ensures PrimeraDeRamo(filas, c, |filas| - 1)
  {
    forall j | 0 <= j < |filas| - 1
      ensures filas[j].codigo != c
    {
      assert filas[j] == previas[j];
    }
  }

  lemma PrimeraDeSeccionMas(filas: seq<Fila>, c: string, p: string, i: int)
    requires filas != [] && PrimeraDeSeccion(filas[..|filas| - 1], c, p, i)
    ensures PrimeraDeSeccion(filas, c, p, i)
  {
    assert forall j :: 0 <= j <= i ==> filas[j] == filas[..|filas| - 1][j];
  }

  lemma PrimeraDeSeccionUltima(filas: seq<Fila>, previas: seq<Fila>, c: string, p: string)
    requires filas != [] && previas == filas[..|filas| - 1]
    requires filas[|filas| - 1].codigo == c && filas[|filas| - 1].paralelo == p
    requires !exists i :: 0 <= i < |previas| && previas[i].codigo == c && previas[i].paralelo == p
    ensures PrimeraDeSeccion(filas, c, p, |filas| - 1)
  {
    forall j | 0 <= j < |filas| - 1
      ensures filas[j].codigo != c || filas[j].paralelo != p
    {
      assert filas[j] == previas[j];
    }
  }

  /** Name and department of a subject come from the first row with its code. */
  lemma {:induction false} PrimerRamo(filas: seq<Fila>, c: string)
    requires c in Agrupar(filas).ramos
    ensures exists i :: PrimeraDeRamo(filas, c, i)
                        && Agrupar(filas).ramos[c].nombre == filas[i].nombre
                        && Agrupar(filas).ramos[c].departamento == filas[i].departamento
    decreases |filas|
  {
    var n := |filas| - 1;
    var previas := filas[..n];
    var r := Agrupar(filas).ramos[c];
    AgregarHechos(Agrupar(previas), filas[n], c, "");
    if c in Agrupar(previas).ramos {
      PrimerRamo(previas, c);
      var r0 := Agrupar(previas).ramos[c];
      var i :| PrimeraDeRamo(previas, c, i) && r0.nombre == previas[i].nombre && r0.departamento == previas[i].departamento;
      PrimeraDeRamoMas(filas, c, i);
      assert filas[i] == previas[i];
      assert r.nombre == filas[i].nombre && r.departamento == filas[i].departamento;
    } else {
      AgruparRamos(previas, c);
      PrimeraDeRamoUltima(filas, previas, c);
      assert r.nombre == filas[n].nombre && r.departamento == filas[n].departamento;
    }
  }

  /** Seats and professors of a section come from the first row with its code and paralelo. */
  lemma {:induction false} PrimeraSeccion(filas: seq<Fila>, c: string, p: string)
    requires c in Agrupar(filas).ramos && p in Agrupar(filas).ramos[c].secciones
    ensures exists i :: PrimeraDeSeccion(filas, c, p, i)
                        && Agrupar(filas).ramos[c].secciones[p].cupos == filas[i].cupos
                        && Agrupar(filas).ramos[c].secciones[p].profesores == ListaProfesores(filas[i].profesores)
    decreases |filas|
  {
    var n := |filas| - 1;
    var previas := filas[..n];
    var s := Agrupar(filas).ramos[c].secciones[p];
    AgregarHechos(Agrupar(previas), filas[n], c, p);
    if c in Agrupar(previas).ramos && p in Agrupar(previas).ramos[c].secciones {
      PrimeraSeccion(previas, c, p);
      var s0 := Agrupar(previas).ramos[c].secciones[p];
      var i :| PrimeraDeSeccion(previas, c, p, i) && s0.cupos == previas[i].cupos
               && s0.profesores == ListaProfesores(previas[i].profesores);
      PrimeraDeSeccionMas(filas, c, p, i);
      assert filas[i] == previas[i];
      assert s.cupos == filas[i].cupos && s.profesores == ListaProfesores(filas[i].profesores);
    } else {
      if c in Agrupar(previas).ramos {
        AgruparSecciones(previas, c, p);
      } else {
        AgruparRamos(previas, c);
      }
      PrimeraDeSeccionUltima(filas, previas, c, p);
      assert s.cupos == filas[n].cupos && s.profesores == ListaProfesores(filas[n].profesores);
    }
  }

  /** The schedule entries of the rows with code c and paralelo p, in row order. */
  function Horario(filas: seq<Fila>, c: string, p: string): seq<Clase>
    decreases |filas|
  {
    if filas == [] then []
    else
      var f := filas[|filas| - 1];
      Horario(filas[..|filas| - 1], c, p) + if f.codigo == c && f.paralelo == p && TieneHorario(f) then [ClaseDe(f)] else []
  }

  /** Rows for other sections add nothing to a section's schedule. */
  lemma {:induction false} HorarioAjeno(filas: seq<Fila>, c: string, p: string)
    requires forall i :: 0 <= i < |filas| ==> filas[i].codigo != c || filas[i].paralelo != p
    ensures Horario(filas, c, p) == []
    decreases |filas|
  {
    if filas != [] {
      HorarioAjeno(filas[..|filas| - 1], c, p);
    }
  }

  /** A section's schedule is every entry of its rows with a truthy day and block, in row order, repeats kept. */
  lemma {:induction false} HorarioAgrupado(filas: seq<Fila>, c: string, p: string)
    requires c in Agrupar(filas).ramos && p in Agrupar(filas).ramos[c].secciones
    ensures Agrupar(filas).ramos[c].secciones[p].horario == Horario(filas, c, p)
    decreases |filas|
  {
    var n := |filas| - 1;
    var previas := filas[..n];
    AgregarHechos(Agrupar(previas), filas[n], c, p);
    if c in Agrupar(previas).ramos && p in Agrupar(previas).ramos[c].secciones {
      HorarioAgrupado(previas, c, p);
    } else {
      if c in Agrupar(previas).ramos {
        AgruparSecciones(previas, c, p);
      } else {
        AgruparRamos(previas, c);
      }
      assert forall j :: 0 <= j < n ==> previas[j].codigo != c || previas[j].paralelo != p;
      HorarioAjeno(previas, c, p);
    }
  }

  // ---------------------------------------------------------------------------
  // mostrar_horario

  /** 'Sala ' . $h['sala'], with NULL read as the empty string. */
  function TextoSala(sala: Option<string>): (r: string)
    ensures |r| >= 5 && r[..5] == "Sala "
  {
    "Sala " + if sala.None? then "" else sala.value
  }

  /** The entry lands on timetable cell (b, d). */
  predicate EnCelda(h: Clase, b: nat, d: nat) { h.bloque == b + 1 && h.dia == d + 1 }

  /** $tabla_horario after the given entries; an entry outside the 10 x 7 table is not stored. */
  function Tabla(horarios: seq<Clase>): (t: seq<seq<string>>)
    ensures Forma(t)
    decreases |horarios|
  {
    if horarios == [] then Llena("")
    else
      var t := Tabla(horarios[..|horarios| - 1]);
      var h := horarios[|horarios| - 1];
      if EnTabla(h.bloque, h.dia) then Poner(t, h.bloque - 1, h.dia - 1, TextoSala(h.sala)) else t
  }

  /** The cell-filling loop of mostrar_horario. */
  method LlenarTabla(horarios: seq<Clase>) returns (tabla: seq<seq<string>>)
    ensures tabla == Tabla(horarios)
  {
    tabla := Llena("");
    for i := 0 to |horarios|
      invariant tabla == Tabla(horarios[..i])
    {
      assert horarios[..i + 1][..i] == horarios[..i];
      var h := horarios[i];
      var fila := h.bloque - 1;
      var columna := h.dia - 1;
      if 0 <= fila < Bloques && 0 <= columna < Dias {
        tabla := Poner(tabla, fila, columna, TextoSala(h.sala));
      }
    }
    assert horarios[..|horarios|] == horarios;
  }

  /** One more entry changes only the cell it falls on. */
  lemma TablaCelda(horarios: seq<Clase>, b: nat, d: nat)
    requires horarios != [] && b < Bloques && d < Dias
    ensures var h := horarios[|horarios| - 1];
            Tabla(horarios)[b][d] == if EnCelda(h, b, d) then TextoSala(h.sala) else Tabla(horarios[..|horarios| - 1])[b][d]
  {
    var t := Tabla(horarios[..|horarios| - 1]);
    var h := horarios[|horarios| - 1];
    if EnTabla(h.bloque, h.dia) {
      assert Tabla(horarios) == Poner(t, h.bloque - 1, h.dia - 1, TextoSala(h.sala));
    } else {
      assert Tabla(horarios) == t;
    }
  }

  /** Entry i is the last one that falls on cell (b, d). */
  predicate UltimaEnCelda(horarios: seq<Clase>, b: nat, d: nat, i: int) {
    0 <= i < |horarios| && EnCelda(horarios[i], b, d) && forall j :: i < j < |horarios| ==> !EnCelda(horarios[j], b, d)
  }

  /**
   * A cell is empty when no entry falls on it, and otherwise shows the room
   * of the last entry that does: a later entry overwrites an earlier one.
   */
  lemma UltimaGana(horarios: seq<Clase>, b: nat, d: nat)
    requires b < Bloques && d < Dias
    ensures Tabla(horarios)[b][d] == "" <==> forall i :: 0 <= i < |horarios| ==> !EnCelda(horarios[i], b, d)
    ensures Tabla(horarios)[b][d] != "" ==>
              exists i :: UltimaEnCelda(horarios, b, d, i) && Tabla(horarios)[b][d] == TextoSala(horarios[i].sala)
  {
    CeldaVacia(horarios, b, d);
    if Tabla(horarios)[b][d] != "" {
      CeldaUltima(horarios, b, d);
    }
  }

  /** The cell is empty exactly when no entry falls on it. */
  lemma {:induction false} CeldaVacia(horarios: seq<Clase>, b: nat, d: nat)
    requires b < Bloques && d < Dias
    ensures Tabla(horarios)[b][d] == "" <==> forall i :: 0 <= i < |horarios| ==> !EnCelda(horarios[i], b, d)
    decreases |horarios|
  {
    if horarios != [] {
      var n := |horarios| - 1;
      var previas := horarios[..n];
      CeldaVacia(previas, b, d);
      TablaCelda(horarios, b, d);
      if !EnCelda(horarios[n], b, d) {
        assert forall j :: 0 <= j < n ==> horarios[j] == previas[j];
      }
    }
  }

  /** A non-empty cell shows the room of the last entry that falls on it. */
  lemma {:induction false} CeldaUltima(horarios: seq<Clase>, b: nat, d: nat)
    requires b < Bloques && d < Dias && Tabla(horarios)[b][d] != ""
    ensures exists i :: UltimaEnCelda(horarios, b, d, i) && Tabla(horarios)[b][d] == TextoSala(horarios[i].sala)
    decreases |horarios|
  {
    var n := |horarios| - 1;
    var previas := horarios[..n];
    TablaCelda(horarios, b, d);
    if EnCelda(horarios[n], b, d) {
      assert UltimaEnCelda(horarios, b, d, n);
    } else {
      CeldaUltima(previas, b, d);
      var i :| UltimaEnCelda(previas, b, d, i) && Tabla(previas)[b][d] == TextoSala(previas[i].sala);
      assert horarios[i] == previas[i];
      assert forall j :: i < j < n ==> horarios[j] == previas[j];
      assert UltimaEnCelda(horarios, b, d, i);
    }
  }

  /** implode('', $fila) */
  function Concat(fila: seq<string>): string {
    if fila == [] then "" else fila[0] + Concat(fila[1..])
  }

  lemma {:induction false} ConcatVacio(fila: seq<string>)
    ensures Concat(fila) == "" <==> forall j :: 0 <= j < |fila| ==> fila[j] == ""
    decreases |fila|
  {
    if fila != [] {
      ConcatVacio(fila[1..]);
    }
  }

  /** The rows the table shows, from row i on, each with its label. */
  function Mostradas(tabla: seq<seq<string>>, ocultar: bool, i: nat): seq<(string, seq<string>)>
    requires Forma(tabla) && i <= Bloques
    decreases Bloques - i
  {
    if i == Bloques then []
    else if ocultar && Concat(tabla[i]) == "" then Mostradas(tabla, ocultar, i + 1)
    else [(Etiqueta(i), tabla[i])] + Mostradas(tabla, ocultar, i + 1)
  }

  /** One row of the rendering loop. */
  lemma MostradasPaso(tabla: seq<seq<string>>, ocultar: bool, i: nat)
    requires Forma(tabla) && i < Bloques
    ensures Mostradas(tabla, ocultar, i)
            == (if ocultar && Concat(tabla[i]) == "" then [] else [(Etiqueta(i), tabla[i])]) + Mostradas(tabla, ocultar, i + 1)
  {
  }

  /** The rendering loop of mostrar_horario, without the HTML: the labelled rows it prints. */
  method FilasMostradas(tabla: seq<seq<string>>, ocultar: bool) returns (filas: seq<(string, seq<string>)>)
    requires Forma(tabla)
    ensures filas == Mostradas(tabla, ocultar, 0)
  {
    filas := [];
    for i := 0 to Bloques
      invariant filas + Mostradas(tabla, ocultar, i) == Mostradas(tabla, ocultar, 0)
    {
      MostradasPaso(tabla, ocultar, i);
      if ocultar && Concat(tabla[i]) == "" {
        continue;
      }
      filas := filas + [(Etiqueta(i), tabla[i])];
    }
  }

  /** Without ocultar_vacios every row is shown, row i labelled "(2i+1)-(2i+2)". */
  lemma {:induction false} TodasMostradas(tabla: seq<seq<string>>, i: nat)
    requires Forma(tabla) && i <= Bloques
    ensures |Mostradas(tabla, false, i)| == Bloques - i
    ensures forall j :: 0 <= j < Bloques - i ==> Mostradas(tabla, false, i)[j] == (Etiqueta(i + j), tabla[i + j])
    decreases Bloques - i
  {
    if i < Bloques {
      TodasMostradas(tabla, i + 1);
      var resto := Mostradas(tabla, false, i + 1);
      var todas := Mostradas(tabla, false, i);
      MostradasPaso(tabla, false, i);
      assert todas == [(Etiqueta(i), tabla[i])] + resto;
      forall j | 0 < j < Bloques - i
        ensures todas[j] == (Etiqueta(i + j), tabla[i + j])
      {
        assert todas[j] == resto[j - 1];
        assert i + j == (i + 1) + (j - 1);
      }
    }
  }

  /** With ocultar_vacios, row k is shown exactly when one of its cells is not empty. */
  lemma {:induction false} OcultasVacias(tabla: seq<seq<string>>, i: nat, k: nat)
    requires Forma(tabla) && i <= k < Bloques
    ensures (Etiqueta(k), tabla[k]) in Mostradas(tabla, true, i) <==> exists j :: 0 <= j < Dias && tabla[k][j] != ""
    decreases Bloques - i
  {
    ConcatVacio(tabla[k]);
    if i < k {
      OcultasVacias(tabla, i + 1, k);
      if Concat(tabla[i]) != "" && (Etiqueta(k), tabla[k]) == (Etiqueta(i), tabla[i]) {
        EtiquetasDistintas(k, i);
      }
    } else {
      if (Etiqueta(k), tabla[k]) in Mostradas(tabla, true, k + 1) {
        EtiquetaPosterior(tabla, k + 1, k);
      }
    }
  }

  /** Rows after k never carry row k's label. */
  lemma {:induction false} EtiquetaPosterior(tabla: seq<seq<string>>, i: nat, k: nat)
    requires Forma(tabla) && k < i <= Bloques
    ensures forall x :: x in Mostradas(tabla, true, i) ==> x.0 != Etiqueta(k)
    decreases Bloques - i
  {
    if i < Bloques {
      EtiquetaPosterior(tabla, i + 1, k);
      if Etiqueta(i) == Etiqueta(k) {
        EtiquetasDistintas(i, k);
      }
    }
  }

  /** With ocultar_vacios, a block row of a section's timetable is shown exactly when some entry falls in it. */
  lemma FilaConClases(horarios: seq<Clase>, k: nat)
    requires k < Bloques
    ensures (Etiqueta(k), Tabla(horarios)[k]) in Mostradas(Tabla(horarios), true, 0)
            <==> exists i :: 0 <= i < |horarios| && horarios[i].bloque == k + 1 && 1 <= horarios[i].dia <= Dias
  {
    var t := Tabla(horarios);
    OcultasVacias(t, 0, k);
    if exists i :: 0 <= i < |horarios| && horarios[i].bloque == k + 1 && 1 <= horarios[i].dia <= Dias {
      var i :| 0 <= i < |horarios| && horarios[i].bloque == k + 1 && 1 <= horarios[i].dia <= Dias;
      var d := horarios[i].dia - 1;
      assert EnCelda(horarios[i], k, d);
      UltimaGana(horarios, k, d);
      assert t[k][d] != "";
    }
    if exists j :: 0 <= j < Dias && t[k][j] != "" {
      var j :| 0 <= j < Dias && t[k][j] != "";
      UltimaGana(horarios, k, j);
      var i :| 0 <= i < |horarios| && EnCelda(horarios[i], k, j);
      assert horarios[i].bloque == k + 1 && 1 <= horarios[i].dia <= Dias;
    }
  }
}
