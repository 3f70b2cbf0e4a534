/**
 * The room search page: the request parameters, the reduction of a room
 * name to its base name (a cascade of regular expressions), the per-room
 * 10 x 7 timetable that lists each code-paralelo pair once per cell, and
 * the grouping of the result rows by base name.  The SQL query itself is
 * left to the database: its rows are an input.
 */
module BuscarSalas {
  import opened Wrappers
  import opened Text
  import opened SedonaWeb

  // ---------------------------------------------------------------------------
  // cargar_parametros

  datatype Parametros = Parametros(sala: string, campus: string, semestre: string)

  /** cargar_parametros: room, campus and semester must all be present and truthy. */
  function CargarParametros(sala: Option<string>, campus: Option<string>, semestre: Option<string>): (r: Result<Parametros, string>)
    ensures r.Ok? <==> Truthy(sala) && Truthy(campus) && Truthy(semestre)
    ensures r.Ok? ==> r.value == Parametros(sala.value, campus.value, semestre.value)
  {
    if !Truthy(sala) || !Truthy(campus) || !Truthy(semestre) then Err("Parámetros incompletos o inválidos")
    else Ok(Parametros(sala.value, campus.value, semestre.value))
  }

  // ---------------------------------------------------------------------------
  // Step 1 of obtener_base_sala: '/\s*[-]?\s*(SJ|Campus|Laboratorio)\s*$/i' replaced by ''

  /** Number of PCRE whitespace characters just before position j of s. */
  function Finales(s: string, j: nat): (n: nat)
    requires j <= |s|
    ensures n <= j
    ensures forall k :: j - n <= k < j ==> IsPcreSpace(s[k])
    ensures n == j || !IsPcreSpace(s[j - n - 1])
  {
    if j > 0 && IsPcreSpace(s[j - 1]) then 1 + Finales(s, j - 1) else 0
  }

  /** Where the trailing whitespace of s begins. */
  function FinTexto(s: string): (e: nat)
    ensures e <= |s|
    ensures forall k :: e <= k < |s| ==> IsPcreSpace(s[k])
    ensures e == 0 || !IsPcreSpace(s[e - 1])
  {
    |s| - Finales(s, |s|)
  }

  /** s[p..q] is text matched by \s*[-]?\s*: whitespace with at most one hyphen. */
  predicate Relleno(s: string, p: nat, q: nat)
    requires p <= q <= |s|
  {
    (forall k :: p <= k < q ==> IsPcreSpace(s[k]) || s[k] == '-')
    && forall k1, k2 :: p <= k1 < k2 < q ==> s[k1] != '-' || s[k2] != '-'
  }

  /** Case-folded, the characters of s just before position e spell w. */
  predicate PalabraAntes(s: string, e: nat, w: string)
    requires e <= |s|
  {
    |w| <= e && Lower(s)[e - |w|..e] == w
  }

  /**
   * From position p to the end, s is a filler, then the suffix word w in
   * any case, then whitespace.  The word ends in a letter, so it ends where
   * the trailing whitespace of s begins.
   */
  predicate TerminaEn(s: string, p: nat, w: string)
    requires p <= |s|
  {
    var e := FinTexto(s);
    p + |w| <= e && PalabraAntes(s, e, w) && Relleno(s, p, e - |w|)
  }

  /** The suffix pattern matches s from position p to its end. */
  predicate CoincideSufijo(s: string, p: nat)
    requires p <= |s|
  {
    TerminaEn(s, p, "sj") || TerminaEn(s, p, "campus") || TerminaEn(s, p, "laboratorio")
  }

  /** Length of the suffix word that ends at position e of s, if any. */
  function LargoSufijo(s: string, e: nat): (n: nat)
    requires e <= |s|
    ensures n == 0 || n == 2 || n == 6 || n == 11
    ensures n <= e
    ensures n == 2 ==> PalabraAntes(s, e, "sj")
    ensures n == 6 ==> PalabraAntes(s, e, "campus")
    ensures n == 11 ==> PalabraAntes(s, e, "laboratorio")
    ensures n == 0 ==> !PalabraAntes(s, e, "sj") && !PalabraAntes(s, e, "campus") && !PalabraAntes(s, e, "laboratorio")
  {
    if PalabraAntes(s, e, "sj") then 2
    else if PalabraAntes(s, e, "campus") then 6
    else if PalabraAntes(s, e, "laboratorio") then 11
    else 0
  }

  /** Where the filler before position q starts: back over whitespace, one hyphen, whitespace. */
  function InicioRelleno(s: string, q: nat): (p: nat)
    requires q <= |s|
    ensures p <= q && Relleno(s, p, q)
    ensures p == 0 || (!IsPcreSpace(s[p - 1]) && (s[p - 1] == '-' ==> exists k :: p <= k < q && s[k] == '-'))
  {
    var p1 := q - Finales(s, q);
    if p1 > 0 && s[p1 - 1] == '-' then
      var p0 := p1 - 1 - Finales(s, p1 - 1);
      p0
    else p1
  }

  /** The first step of obtener_base_sala. */
  function QuitarSufijo(s: string): (r: string)
    ensures |r| <= |s| && r == s[..|r|]
  {
    var e := FinTexto(s);
    var n := LargoSufijo(s, e);
    if n == 0 then s else s[..InicioRelleno(s, e - n)]
  }

  /** A filler ending at q cannot start before the place InicioRelleno finds. */
  lemma NoRelleno(s: string, p: nat, q: nat)
    requires q <= |s| && p < InicioRelleno(s, q)
    ensures !Relleno(s, p, q)
  {
    var p0 := InicioRelleno(s, q);
    if s[p0 - 1] == '-' {
      var k :| p0 <= k < q && s[k] == '-';
    }
  }

  /** The case-folded last character of a word found at the end. */
  lemma UltimaLetra(s: string, e: nat, w: string)
    requires 1 <= |w| && e <= |s| && PalabraAntes(s, e, w)
    ensures LowerChar(s[e - 1]) == w[|w| - 1]
  {
    assert Lower(s)[e - |w|..e][|w| - 1] == Lower(s)[e - 1];
  }

  /** A suffix word found at the end of the text is the one LargoSufijo names. */
  lemma PalabraUnica(s: string, e: nat, w: string)
    requires w == "sj" || w == "campus" || w == "laboratorio"
    requires e <= |s| && PalabraAntes(s, e, w)
    ensures LargoSufijo(s, e) == |w|
  {
    UltimaLetra(s, e, w);
    var n := LargoSufijo(s, e);
    if n != 0 {
      var v := if n == 2 then "sj" else if n == 6 then "campus" else "laboratorio";
      UltimaLetra(s, e, v);
    }
  }

  /** The suffix word w matches from p exactly when it is the word LargoSufijo finds at the end of s. */
  lemma TerminaEnDesde(s: string, p: nat, w: string)
    requires p <= |s| && (w == "sj" || w == "campus" || w == "laboratorio")
    ensures var e := FinTexto(s);
            TerminaEn(s, p, w) <==> LargoSufijo(s, e) == |w| && p <= e - |w| && Relleno(s, p, e - |w|)
  {
    var e := FinTexto(s);
    if PalabraAntes(s, e, w) {
      PalabraUnica(s, e, w);
    }
  }

  /** The suffix pattern matches from p exactly when a filler runs from p to the suffix word. */
  lemma CoincideDesde(s: string, p: nat)
    requires p <= |s|
    ensures var e := FinTexto(s); var n := LargoSufijo(s, e);
            CoincideSufijo(s, p) <==> n != 0 && p <= e - n && Relleno(s, p, e - n)
  {
    TerminaEnDesde(s, p, "sj");
    TerminaEnDesde(s, p, "campus");
    TerminaEnDesde(s, p, "laboratorio");
  }

  /** No match of the suffix pattern starts before the cut. */
  lemma AntesDelCorte(s: string, p: nat)
    requires p < |QuitarSufijo(s)|
    ensures !CoincideSufijo(s, p)
  {
    var e := FinTexto(s);
    var n := LargoSufijo(s, e);
    if n != 0 {
      assert |QuitarSufijo(s)| == InicioRelleno(s, e - n);
      NoRelleno(s, p, e - n);
    }
    CoincideDesde(s, p);
  }

  /** What the first step removes is matched in full by the suffix pattern. */
  lemma EnElCorte(s: string)
    requires QuitarSufijo(s) != s
    ensures CoincideSufijo(s, |QuitarSufijo(s)|)
  {
    var e := FinTexto(s);
    var n := LargoSufijo(s, e);
    assert n != 0;
    var p0 := InicioRelleno(s, e - n);
    assert |QuitarSufijo(s)| == p0;
    CoincideDesde(s, p0);
  }

  /**
   * The first step cuts s where the suffix pattern first matches (the
   * leftmost match, which runs to the end of s); when it matches nowhere,
   * s is left as it is.
   */
  lemma QuitarSufijoCorrecto(s: string)
    ensures forall p :: 0 <= p < |QuitarSufijo(s)| ==> !CoincideSufijo(s, p)
    ensures QuitarSufijo(s) != s ==> CoincideSufijo(s, |QuitarSufijo(s)|)
  {
    forall p | 0 <= p < |QuitarSufijo(s)|
      ensures !CoincideSufijo(s, p)
    {
      AntesDelCorte(s, p);
    }
    if QuitarSufijo(s) != s {
      EnElCorte(s);
    }
  }

  // ---------------------------------------------------------------------------
  // Steps 2 to 4 of obtener_base_sala.  PCRE tries each start position from
  // the left and, at a given start, its greedy quantifiers never need to give
  // anything back here: whitespace and '-' are not word characters, so a
  // shorter run of them is followed by a character that cannot continue the
  // match.  Each pattern therefore matches at position i exactly when the
  // greedy runs from i line up, and the match is the leftmost such i.

  /** Length of the run of PCRE whitespace starting at position j. */
  function Espacios(s: string, j: nat): (n: nat)
    requires j <= |s|
    ensures j + n <= |s|
    ensures forall k :: j <= k < j + n ==> IsPcreSpace(s[k])
    ensures j + n == |s| || !IsPcreSpace(s[j + n])
    decreases |s| - j
  {
    if j < |s| && IsPcreSpace(s[j]) then 1 + Espacios(s, j + 1) else 0
  }

  /** Length of the run of word characters (\w) starting at position j. */
  function Letras(s: string, j: nat): (n: nat)
    requires j <= |s|
    ensures j + n <= |s|
    ensures forall k :: j <= k < j + n ==> IsWordChar(s[k])
    ensures j + n == |s| || !IsWordChar(s[j + n])
    decreases |s| - j
  {
    if j < |s| && IsWordChar(s[j]) then 1 + Letras(s, j + 1) else 0
  }

  /** Length of the run of ASCII letters and digits starting at position j. */
  function Alfanumericos(s: string, j: nat): (n: nat)
    requires j <= |s|
    ensures j + n <= |s|
    ensures forall k :: j <= k < j + n ==> IsAlnum(s[k])
    ensures j + n == |s| || !IsAlnum(s[j + n])
    decreases |s| - j
  {
    if j < |s| && IsAlnum(s[j]) then 1 + Alfanumericos(s, j + 1) else 0
  }

  /** Where \s*[-]?\s* stops when it starts at position j. */
  function TrasRelleno(s: string, j: nat): (b: nat)
    requires j <= |s|
    ensures j <= b <= |s| && Relleno(s, j, b)
    ensures b == |s| || !IsPcreSpace(s[b])
  {
    var a := j + Espacios(s, j);
    if a < |s| && s[a] == '-' then
      var b := a + 1 + Espacios(s, a + 1);
      assert forall k :: j <= k < b && k != a ==> IsPcreSpace(s[k]);
      b
    else
      a
  }

  /** "lab", in any case, starts at position i. */
  predicate LabAt(s: string, i: nat) {
    i + 3 <= |s| && LowerChar(s[i]) == 'l' && LowerChar(s[i + 1]) == 'a' && LowerChar(s[i + 2]) == 'b'
  }

  /** /(LAB\s*[-]?\s*\w+)/i matches at position i. */
  predicate LabEn(s: string, i: nat) {
    LabAt(s, i) && TrasRelleno(s, i + 3) < |s| && IsWordChar(s[TrasRelleno(s, i + 3)])
  }

  /** Where the match of /(LAB\s*[-]?\s*\w+)/i at position i ends. */
  function FinLab(s: string, i: nat): (m: nat)
    requires LabEn(s, i)
    ensures i + 3 < m <= |s| && IsWordChar(s[m - 1])
    ensures m == |s| || !IsWordChar(s[m])
  {
    var b := TrasRelleno(s, i + 3);
    b + Letras(s, b)
  }

  /** /(\w+)\s+LAB/i matches at position i. */
  predicate PalabraLabEn(s: string, i: nat) {
    i < |s| && IsWordChar(s[i])
    && var j := i + Letras(s, i);
       j < |s| && IsPcreSpace(s[j]) && LabAt(s, j + Espacios(s, j))
  }

  /** The leftmost position at or after i where /(LAB\s*[-]?\s*\w+)/i matches. */
  function PrimerLab(s: string, i: nat): (r: Option<nat>)
    requires i <= |s|
    ensures r.Some? ==> i <= r.value < |s| && LabEn(s, r.value)
    ensures forall k :: i <= k < (if r.Some? then r.value else |s|) ==> !LabEn(s, k)
    decreases |s| - i
  {
    if i == |s| then None
    else if LabEn(s, i) then Some(i)
    else PrimerLab(s, i + 1)
  }

  /** The leftmost position at or after i where /(\w+)\s+LAB/i matches. */
  function PrimerPalabraLab(s: string, i: nat): (r: Option<nat>)
    requires i <= |s|
    ensures r.Some? ==> i <= r.value < |s| && PalabraLabEn(s, r.value)
    ensures forall k :: i <= k < (if r.Some? then r.value else |s|) ==> !PalabraLabEn(s, k)
    decreases |s| - i
  {
    if i == |s| then None
    else if PalabraLabEn(s, i) then Some(i)
    else PrimerPalabraLab(s, i + 1)
  }

  /**
   * obtener_base_sala: drop the trailing suffix, then return the first
   * "LAB" token, else the word before the first " LAB", else the letters and
   * digits before the first other character.
   */
  function ObtenerBaseSala(nombre: string): (r: string)
    ensures Infijo(r, nombre)
  {
    var s := QuitarSufijo(nombre);
    TrozoInfijo(nombre, 0, |s|);
    InfijoTransitivo(BaseDe(s), s, nombre);
    BaseDe(s)
  }

  /** Steps 2 to 4 of obtener_base_sala, on the name without its suffix; the base is a piece of it. */
  function BaseDe(s: string): (r: string)
    ensures Infijo(r, s)
  {
    match PrimerLab(s, 0)
    case Some(i) =>
      var t := s[i..FinLab(s, i)];
      PhpTrimInfijo(t);
      TrozoInfijo(s, i, FinLab(s, i));
      InfijoTransitivo(PhpTrim(t), t, s);
      PhpTrim(t)
    case None =>
      match PrimerPalabraLab(s, 0)
      case Some(i) =>
        var t := s[i..i + Letras(s, i)];
        PhpTrimInfijo(t);
        TrozoInfijo(s, i, i + Letras(s, i));
        InfijoTransitivo(PhpTrim(t), t, s);
        PhpTrim(t)
      case None =>
        TrozoInfijo(s, 0, Alfanumericos(s, 0));
        s[..Alfanumericos(s, 0)]
  }

  /** PHP's trim() leaves text alone whose first and last characters it does not remove. */
  lemma PhpTrimBordes(t: string)
    requires t != [] && !IsPhpTrimmed(t[0]) && !IsPhpTrimmed(t[|t| - 1])
    ensures PhpTrim(t) == t
  {
  }

  /** The leftmost match is the one the search returns. */
  lemma PrimerLabEs(s: string, i: nat)
    requires LabEn(s, i) && forall k :: 0 <= k < i ==> !LabEn(s, k)
    ensures PrimerLab(s, 0) == Some(i)
  {
  }

  lemma PrimerPalabraLabEs(s: string, i: nat)
    requires PalabraLabEn(s, i) && forall k :: 0 <= k < i ==> !PalabraLabEn(s, k)
    ensures PrimerPalabraLab(s, 0) == Some(i)
  {
  }

  /**
   * Case 1 wins: when a "LAB" token occurs after the suffix is dropped, the
   * base name is the leftmost one, from "lab" to the end of the word that
   * follows it, whatever else the name holds.
   */
  lemma BaseSalaLab(s: string, i: nat)
    requires LabEn(s, i) && forall k :: 0 <= k < i ==> !LabEn(s, k)
    ensures BaseDe(s) == s[i..FinLab(s, i)] && LabAt(BaseDe(s), 0)
  {
    PrimerLabEs(s, i);
    TokenLab(s, i);
  }

  /** The text a "LAB" token spans starts with "lab" and is left alone by trim(). */
  lemma TokenLab(s: string, i: nat)
    requires LabEn(s, i)
    ensures var x := s[i..FinLab(s, i)]; PhpTrim(x) == x && LabAt(x, 0)
  {
    var m := FinLab(s, i);
    var x := s[i..m];
    assert x[0] == s[i] && x[1] == s[i + 1] && x[2] == s[i + 2] && x[|x| - 1] == s[m - 1];
    PhpTrimBordes(x);
  }

  /** A word run that is preceded by a word character is not where the leftmost match starts. */
  lemma PalabraLabAntes(s: string, i: nat)
    requires 0 < i && PalabraLabEn(s, i) && IsWordChar(s[i - 1])
    ensures PalabraLabEn(s, i - 1)
  {
    assert Letras(s, i - 1) == 1 + Letras(s, i);
  }

  /**
   * Case 2: with no "LAB" token, the base name is the whole word that comes
   * first before whitespace and "lab".
   */
  lemma BaseSalaPalabra(s: string, i: nat)
    requires forall k :: 0 <= k < |s| ==> !LabEn(s, k)
    requires PalabraLabEn(s, i) && forall k :: 0 <= k < i ==> !PalabraLabEn(s, k)
    ensures BaseDe(s) == s[i..i + Letras(s, i)] && BaseDe(s) != []
    ensures forall k :: 0 <= k < |BaseDe(s)| ==> IsWordChar(BaseDe(s)[k])
    ensures i == 0 || !IsWordChar(s[i - 1])
  {
    if 0 < i && IsWordChar(s[i - 1]) {
      PalabraLabAntes(s, i);
    }
    SinLab(s);
    PrimerPalabraLabEs(s, i);
    BaseDePalabra(s, i);
  }

  /** With no match of case 1 anywhere, the search for it comes back empty. */
  lemma SinLab(s: string)
    requires forall k :: 0 <= k < |s| ==> !LabEn(s, k)
    ensures PrimerLab(s, 0).None?
  {
  }

  /** What case 2 returns: the word it captured, which trim() leaves alone. */
  lemma BaseDePalabra(s: string, i: nat)
    requires PrimerLab(s, 0).None? && PrimerPalabraLab(s, 0) == Some(i)
    ensures BaseDe(s) == s[i..i + Letras(s, i)] && BaseDe(s) != []
    ensures forall k :: 0 <= k < |BaseDe(s)| ==> IsWordChar(BaseDe(s)[k])
  {
    var w := s[i..i + Letras(s, i)];
    assert forall k :: 0 <= k < |w| ==> w[k] == s[i + k];
    PhpTrimWord(w);
  }

  /**
   * Case 3: with neither pattern, the base name is the longest prefix of
   * ASCII letters and digits (the rest, from the first other character, is
   * dropped).
   */
  lemma BaseSalaAlfanumerica(s: string)
    requires forall k :: 0 <= k < |s| ==> !LabEn(s, k) && !PalabraLabEn(s, k)
    ensures var r := BaseDe(s);
            r == s[..|r|] && (forall k :: 0 <= k < |r| ==> IsAlnum(r[k]))
            && (|r| == |s| || !IsAlnum(s[|r|]))
  {
    SinLab(s);
    assert PrimerPalabraLab(s, 0).None?;
  }

  /** A name without a suffix word at its end goes through the first step unchanged. */
  lemma SinSufijo(s: string)
    requires s != [] && !IsPcreSpace(s[|s| - 1])
    requires |s| < 2 || LowerChar(s[|s| - 1]) != 'j'
    requires |s| < 6 || LowerChar(s[|s| - 1]) != 's'
    requires |s| < 11 || LowerChar(s[|s| - 1]) != 'o'
    ensures QuitarSufijo(s) == s
  {
    var e := FinTexto(s);
    assert e == |s|;
    if LargoSufijo(s, e) != 0 {
      var w := if LargoSufijo(s, e) == 2 then "sj" else if LargoSufijo(s, e) == 6 then "campus" else "laboratorio";
      UltimaLetra(s, e, w);
    }
  }

  /** Case 1 cannot start where there is no 'l' or 'L'. */
  lemma SinLabAntes(s: string, i: nat)
    requires i <= |s| && forall k :: 0 <= k < i ==> LowerChar(s[k]) != 'l'
    ensures forall k :: 0 <= k < i ==> !LabEn(s, k)
  {
  }

  /** The "LAB" token of the documented example. */
  lemma EjemploToken(s: string)
    requires s == "B008 LAB-MEC"
    ensures LabEn(s, 5) && FinLab(s, 5) == 12 && s[5..12] == "LAB-MEC"
  {
    assert s[5..8] == "LAB";
    assert TrasRelleno(s, 8) == 9;
  }

  /**
   * The example in the documentation of obtener_base_sala gives "B008" for
   * "B008 LAB-MEC", but the "LAB" token case is tried first and returns
   * "LAB-MEC".
   */
  lemma EjemploDocumentado(s: string)
    requires s == "B008 LAB-MEC"
    ensures ObtenerBaseSala(s) == "LAB-MEC"
  {
    assert LowerChar(s[0]) == 'b' && LowerChar(s[1]) == '0' && LowerChar(s[2]) == '0';
    assert LowerChar(s[3]) == '8' && LowerChar(s[4]) == ' ';
    SinLabAntes(s, 5);
    EjemploToken(s);
    BaseSalaLab(s, 5);
    SinSufijo(s);
  }

  /** The word before " LAB" of the second example. */
  lemma EjemploPalabra(s: string)
    requires s == "B008 LAB"
    ensures PalabraLabEn(s, 0) && Letras(s, 0) == 4 && s[0..4] == "B008"
    ensures !LabEn(s, 5)
  {
    EjemploCorridas(s);
    assert LabAt(s, 5);
  }

  /** The runs of word characters and whitespace in "B008 LAB". */
  lemma EjemploCorridas(s: string)
    requires s == "B008 LAB"
    ensures Letras(s, 0) == 4 && Espacios(s, 4) == 1 && TrasRelleno(s, 8) == 8
  {
    assert Letras(s, 4) == 0;
    assert Letras(s, 2) == 2;
    assert Espacios(s, 8) == 0;
  }

  /** "B008 LAB" holds no "LAB" token: its only "LAB" has no word after it. */
  lemma EjemploSinToken(s: string)
    requires s == "B008 LAB"
    ensures forall k :: 0 <= k < |s| ==> !LabEn(s, k)
  {
    assert LowerChar(s[0]) == 'b' && LowerChar(s[1]) == '0' && LowerChar(s[2]) == '0';
    assert LowerChar(s[3]) == '8' && LowerChar(s[4]) == ' ';
    SinLabAntes(s, 5);
    EjemploPalabra(s);
  }

  /** "B008 LAB": the token "LAB" has no word after it, so case 2 returns "B008". */
  lemma EjemploPalabraLab(s: string)
    requires s == "B008 LAB"
    ensures ObtenerBaseSala(s) == "B008"
  {
    EjemploSinToken(s);
    EjemploPalabra(s);
    BaseSalaPalabra(s, 0);
    SinSufijo(s);
  }

  // ---------------------------------------------------------------------------
  // mostrar_horario_para_sala: the 10 x 7 grid of one room

  /** A row returned by buscar_sala. */
  datatype FilaSala = FilaSala(sala: string, codigo: string, nombre: string, paralelo: string, dia: int, bloque: int)

  /** One entry of a grid cell. */
  datatype Asignatura = Asignatura(codigo: string, nombre: string, paralelo: string)

  function AsignaturaDe(f: FilaSala): (a: Asignatura)
    ensures a.codigo == f.codigo && a.nombre == f.nombre && a.paralelo == f.paralelo
  {
    Asignatura(f.codigo, f.nombre, f.paralelo)
  }

  /** The key a cell entry is told apart by: code, '-', paralelo. */
  function Clave(a: Asignatura): (k: string)
    ensures |k| == |a.codigo| + 1 + |a.paralelo| && k[|a.codigo|] == '-'
  {
    a.codigo + "-" + a.paralelo
  }

  function Claves(xs: seq<Asignatura>): (ks: seq<string>)
    ensures |ks| == |xs| && forall i :: 0 <= i < |xs| ==> ks[i] == Clave(xs[i])
  {
    seq(|xs|, i requires 0 <= i < |xs| => Clave(xs[i]))
  }

  lemma ClavesMas(xs: seq<Asignatura>, x: Asignatura)
    ensures Claves(xs + [x]) == Claves(xs) + [Clave(x)]
  {
  }

  /** The entries in order, each kept unless an entry with the same key was kept before. */
  function SinDuplicados(xs: seq<Asignatura>): (r: seq<Asignatura>)
    ensures |r| <= |xs|
    decreases |xs|
  {
    if xs == [] then []
    else
      var r := SinDuplicados(xs[..|xs| - 1]);
      var x := xs[|xs| - 1];
      if Clave(x) in Claves(r) then r else r + [x]
  }

  /** Position of the first entry of xs with key k. */
  function PrimeraCon(xs: seq<Asignatura>, k: string): (i: nat)
    requires k in Claves(xs)
    ensures i < |xs| && Clave(xs[i]) == k
    ensures forall j :: 0 <= j < i ==> Clave(xs[j]) != k
    decreases |xs|
  {
    var ys := xs[..|xs| - 1];
    if k in Claves(ys) then
      var i := PrimeraCon(ys, k);
      assert xs[i] == ys[i] && forall j :: 0 <= j < i ==> xs[j] == ys[j];
      i
    else
      assert forall j :: 0 <= j < |ys| ==> Clave(xs[j]) == Claves(ys)[j];
      |xs| - 1
  }

  /** No key appears twice among the kept entries. */
  lemma {:induction false} SinDuplicadosUnicas(xs: seq<Asignatura>)
    ensures SinRepetir(Claves(SinDuplicados(xs)))
    decreases |xs|
  {
    if xs != [] {
      var r := SinDuplicados(xs[..|xs| - 1]);
      var x := xs[|xs| - 1];
      SinDuplicadosUnicas(xs[..|xs| - 1]);
      if Clave(x) !in Claves(r) {
        ClavesMas(r, x);
      }
    }
  }

  /** The kept entries have exactly the keys of the input. */
  lemma {:induction false} SinDuplicadosClaves(xs: seq<Asignatura>)
    ensures forall k :: k in Claves(xs) <==> k in Claves(SinDuplicados(xs))
    decreases |xs|
  {
    if xs != [] {
      var ys := xs[..|xs| - 1];
      var r := SinDuplicados(ys);
      var x := xs[|xs| - 1];
      SinDuplicadosClaves(ys);
      assert Claves(xs) == Claves(ys) + [Clave(x)];
      if Clave(x) !in Claves(r) {
        ClavesMas(r, x);
      }
    }
  }

  /** Growing the input does not move the first entry of a key it already had. */
  lemma PrimeraConMas(xs: seq<Asignatura>, k: string)
    requires xs != [] && k in Claves(xs[..|xs| - 1])
    ensures k in Claves(xs) && PrimeraCon(xs, k) == PrimeraCon(xs[..|xs| - 1], k)
  {
    assert Claves(xs) == Claves(xs[..|xs| - 1]) + [Clave(xs[|xs| - 1])];
  }

  /** y is the first entry of xs with its key. */
  predicate EsPrimera(xs: seq<Asignatura>, y: Asignatura) {
    Clave(y) in Claves(xs) && y == xs[PrimeraCon(xs, Clave(y))]
  }

  /** Each kept entry is the first entry of the input with its key. */
  lemma {:induction false} SinDuplicadosPrimeras(xs: seq<Asignatura>)
    ensures forall p :: 0 <= p < |SinDuplicados(xs)| ==> EsPrimera(xs, SinDuplicados(xs)[p])
    decreases |xs|
  {
    if xs != [] {
      var ys := xs[..|xs| - 1];
      var r0 := SinDuplicados(ys);
      var r := SinDuplicados(xs);
      var x := xs[|xs| - 1];
      SinDuplicadosPrimeras(ys);
      SinDuplicadosClaves(ys);
      assert Claves(xs) == Claves(ys) + [Clave(x)];
      forall p | 0 <= p < |r|
        ensures EsPrimera(xs, r[p])
      {
        if p < |r0| {
          assert r[p] == r0[p];
          assert EsPrimera(ys, r0[p]);
          PrimeraConMas(xs, Clave(r0[p]));
          assert xs[PrimeraCon(ys, Clave(r0[p]))] == ys[PrimeraCon(ys, Clave(r0[p]))];
        } else {
          assert r == r0 + [x] && r[p] == x;
          assert Clave(x) !in Claves(ys);
          assert PrimeraCon(xs, Clave(x)) == |ys|;
        }
      }
    }
  }

  /** The first entry of xs with y's key comes before the first with z's. */
  predicate Antes(xs: seq<Asignatura>, y: Asignatura, z: Asignatura) {
    Clave(y) in Claves(xs) && Clave(z) in Claves(xs) && PrimeraCon(xs, Clave(y)) < PrimeraCon(xs, Clave(z))
  }

  /** The kept entries come in the order of the first appearances of their keys. */
  lemma {:induction false} SinDuplicadosOrden(xs: seq<Asignatura>)
    ensures forall p, q :: 0 <= p < q < |SinDuplicados(xs)| ==> Antes(xs, SinDuplicados(xs)[p], SinDuplicados(xs)[q])
    decreases |xs|
  {
    if xs != [] {
      var ys := xs[..|xs| - 1];
      var r0 := SinDuplicados(ys);
      var r := SinDuplicados(xs);
      var x := xs[|xs| - 1];
      SinDuplicadosOrden(ys);
      SinDuplicadosPrimeras(ys);
      SinDuplicadosClaves(ys);
      assert Claves(xs) == Claves(ys) + [Clave(x)];
      forall p, q | 0 <= p < q < |r|
        ensures Antes(xs, r[p], r[q])
      {
        assert r[p] == r0[p];
        assert EsPrimera(ys, r0[p]);
        PrimeraConMas(xs, Clave(r0[p]));
        if q < |r0| {
          assert r[q] == r0[q];
          assert Antes(ys, r0[p], r0[q]);
          PrimeraConMas(xs, Clave(r0[q]));
        } else {
          assert r == r0 + [x] && r[q] == x;
          assert Clave(x) !in Claves(ys);
          assert PrimeraCon(xs, Clave(x)) == |ys|;
        }
      }
    }
  }

  /** The entries of the rows that fall on cell (b, d) (0-based block and day), in row order. */
  function EnCeldaSala(filas: seq<FilaSala>, b: int, d: int): (xs: seq<Asignatura>)
    ensures |xs| <= |filas|
    decreases |filas|
  {
    if filas == [] then []
    else
      var f := filas[|filas| - 1];
      EnCeldaSala(filas[..|filas| - 1], b, d) + (if f.bloque - 1 == b && f.dia - 1 == d then [AsignaturaDe(f)] else [])
  }

  /** The grid the rows fill: each cell lists its entries once per key, first come first kept. */
  ghost predicate GrillaDe(filas: seq<FilaSala>, tabla: seq<seq<seq<Asignatura>>>) {
    Forma(tabla) && forall b, d :: 0 <= b < Bloques && 0 <= d < Dias ==> CeldaDe(filas, tabla, b, d)
  }

  /** Cell (b, d) of the grid lists the entries of the rows that fall on it once per key, first come first kept. */
  ghost predicate CeldaDe(filas: seq<FilaSala>, tabla: seq<seq<seq<Asignatura>>>, b: int, d: int) {
    0 <= b < |tabla| && 0 <= d < |tabla[b]| && tabla[b][d] == SinDuplicados(EnCeldaSala(filas, b, d))
  }

  /**
   * The cell-filling loop of mostrar_horario_para_sala.  A row whose block
   * or day falls outside the grid reads a missing cell, and in_array() on
   * that null throws a TypeError, which the page's catch of Exception does
   * not catch: the result is then None.
   */
  method LlenarHorarioSala(filas: seq<FilaSala>) returns (r: Option<seq<seq<seq<Asignatura>>>>)
    ensures r.None? <==> exists i :: 0 <= i < |filas| && !EnTabla(filas[i].bloque, filas[i].dia)
    ensures r.Some? ==> GrillaDe(filas, r.value)
  {
    var tabla := Llena<seq<Asignatura>>([]);
    var mostradas := Llena<seq<string>>([]);
    assert filas[..0] == [];
    for i := 0 to |filas|
      invariant forall k :: 0 <= k < i ==> EnTabla(filas[k].bloque, filas[k].dia)
      invariant Mostradas(filas[..i], tabla, mostradas)
    {
      var row := filas[i];
      var fila := row.bloque - 1;
      var columna := row.dia - 1;
      if !(0 <= fila < Bloques && 0 <= columna < Dias) {
        assert !EnTabla(filas[i].bloque, filas[i].dia);
        return None;
      }
      tabla, mostradas := PonerFila(filas, i, tabla, mostradas);
    }
    assert filas[..|filas|] == filas;
    return Some(tabla);
  }

  /** The loop body for one row inside the grid: its entry goes to its cell unless the cell lists its key already. */
  method PonerFila(filas: seq<FilaSala>, i: nat, tabla: seq<seq<seq<Asignatura>>>, mostradas: seq<seq<seq<string>>>)
    returns (tabla2: seq<seq<seq<Asignatura>>>, mostradas2: seq<seq<seq<string>>>)
    requires i < |filas| && EnTabla(filas[i].bloque, filas[i].dia) && Mostradas(filas[..i], tabla, mostradas)
    ensures Mostradas(filas[..i + 1], tabla2, mostradas2)
  {
    var row := filas[i];
    var fila := row.bloque - 1;
    var columna := row.dia - 1;
    var clave := row.codigo + "-" + row.paralelo;
    MostradasPaso(filas, i, tabla, mostradas);
    tabla2, mostradas2 := tabla, mostradas;
    if clave !in mostradas[fila][columna] {
      tabla2 := Poner(tabla, fila, columna, tabla[fila][columna] + [Asignatura(row.codigo, row.nombre, row.paralelo)]);
      mostradas2 := Poner(mostradas, fila, columna, mostradas[fila][columna] + [clave]);
    }
  }

  /** One more row changes only its own cell, and that one only when its key is new there. */
  lemma GrillaPaso(filas: seq<FilaSala>, i: nat, t: seq<seq<seq<Asignatura>>>, t2: seq<seq<seq<Asignatura>>>)
    requires i < |filas| && GrillaDe(filas[..i], t) && EnTabla(filas[i].bloque, filas[i].dia)
    requires var b := filas[i].bloque - 1; var d := filas[i].dia - 1; var a := AsignaturaDe(filas[i]);
             t2 == if Clave(a) in Claves(t[b][d]) then t else Poner(t, b, d, t[b][d] + [a])
    ensures GrillaDe(filas[..i + 1], t2)
  {
    var b := filas[i].bloque - 1;
    var d := filas[i].dia - 1;
    if Clave(AsignaturaDe(filas[i])) in Claves(t[b][d]) {
      GrillaIgual(filas, i, t);
    } else {
      GrillaNueva(filas, i, t);
    }
  }

  /** A row whose key its cell already lists leaves the grid as it is. */
  lemma GrillaIgual(filas: seq<FilaSala>, i: nat, t: seq<seq<seq<Asignatura>>>)
    requires i < |filas| && GrillaDe(filas[..i], t) && EnTabla(filas[i].bloque, filas[i].dia)
    requires Clave(AsignaturaDe(filas[i])) in Claves(t[filas[i].bloque - 1][filas[i].dia - 1])
    ensures GrillaDe(filas[..i + 1], t)
  {
    var hasta := filas[..i + 1];
    forall b, d | 0 <= b < Bloques && 0 <= d < Dias
      ensures CeldaDe(hasta, t, b, d)
    {
      CeldaIgual(filas, i, t, b, d);
    }
  }

  /** GrillaIgual for one cell. */
  lemma CeldaIgual(filas: seq<FilaSala>, i: nat, t: seq<seq<seq<Asignatura>>>, b: int, d: int)
    requires i < |filas| && CeldaDe(filas[..i], t, b, d)
    requires b == filas[i].bloque - 1 && d == filas[i].dia - 1 ==> Clave(AsignaturaDe(filas[i])) in Claves(t[b][d])
    ensures CeldaDe(filas[..i + 1], t, b, d)
  {
    CeldaSinCambio(filas, i, b, d);
  }

  /** A cell stays as it is unless it is the row's own and the row's key is new there. */
  lemma CeldaSinCambio(filas: seq<FilaSala>, i: nat, b: int, d: int)
    requires i < |filas|
    requires filas[i].bloque - 1 == b && filas[i].dia - 1 == d
             ==> Clave(AsignaturaDe(filas[i])) in Claves(SinDuplicados(EnCeldaSala(filas[..i], b, d)))
    ensures SinDuplicados(EnCeldaSala(filas[..i + 1], b, d)) == SinDuplicados(EnCeldaSala(filas[..i], b, d))
  {
    var antes := SinDuplicados(EnCeldaSala(filas[..i], b, d));
    CeldaPaso(filas, i, b, d, antes, antes);
  }

  /** A row with a key new to its cell is appended to that cell alone. */
  lemma GrillaNueva(filas: seq<FilaSala>, i: nat, t: seq<seq<seq<Asignatura>>>)
    requires i < |filas| && GrillaDe(filas[..i], t) && EnTabla(filas[i].bloque, filas[i].dia)
    requires Clave(AsignaturaDe(filas[i])) !in Claves(t[filas[i].bloque - 1][filas[i].dia - 1])
    ensures var b := filas[i].bloque - 1; var d := filas[i].dia - 1;
            GrillaDe(filas[..i + 1], Poner(t, b, d, t[b][d] + [AsignaturaDe(filas[i])]))
  {
    var fb := filas[i].bloque - 1;
    var fd := filas[i].dia - 1;
    var t2 := Poner(t, fb, fd, t[fb][fd] + [AsignaturaDe(filas[i])]);
    var hasta := filas[..i + 1];
    forall b, d | 0 <= b < Bloques && 0 <= d < Dias
      ensures CeldaDe(hasta, t2, b, d)
    {
      CeldaNueva(filas, i, t, b, d);
    }
  }

  /** GrillaNueva for one cell. */
  lemma CeldaNueva(filas: seq<FilaSala>, i: nat, t: seq<seq<seq<Asignatura>>>, b: int, d: int)
    requires i < |filas| && Forma(t) && EnTabla(filas[i].bloque, filas[i].dia) && CeldaDe(filas[..i], t, b, d)
    requires b == filas[i].bloque - 1 && d == filas[i].dia - 1 ==> Clave(AsignaturaDe(filas[i])) !in Claves(t[b][d])
    ensures var fb := filas[i].bloque - 1; var fd := filas[i].dia - 1;
            CeldaDe(filas[..i + 1], Poner(t, fb, fd, t[fb][fd] + [AsignaturaDe(filas[i])]), b, d)
  {
    var fb := filas[i].bloque - 1;
    var fd := filas[i].dia - 1;
    var t2 := Poner(t, fb, fd, t[fb][fd] + [AsignaturaDe(filas[i])]);
    CeldaPaso(filas, i, b, d, t[b][d], t2[b][d]);
  }

  /** GrillaPaso for one cell. */
  lemma CeldaPaso(filas: seq<FilaSala>, i: nat, b: int, d: int, antes: seq<Asignatura>, despues: seq<Asignatura>)
    requires i < |filas| && antes == SinDuplicados(EnCeldaSala(filas[..i], b, d))
    requires var a := AsignaturaDe(filas[i]);
             despues == if filas[i].bloque - 1 == b && filas[i].dia - 1 == d && Clave(a) !in Claves(antes) then antes + [a] else antes
    ensures despues == SinDuplicados(EnCeldaSala(filas[..i + 1], b, d))
  {
    EnCeldaMas(filas, i, b, d);
    if filas[i].bloque - 1 == b && filas[i].dia - 1 == d {
      SinDuplicadosMas(EnCeldaSala(filas[..i], b, d), AsignaturaDe(filas[i]));
    } else {
      assert EnCeldaSala(filas[..i], b, d) + [] == EnCeldaSala(filas[..i], b, d);
    }
  }

  /** Row i joins the entries of its own cell and of no other. */
  lemma EnCeldaMas(filas: seq<FilaSala>, i: nat, b: int, d: int)
    requires i < |filas|
    ensures EnCeldaSala(filas[..i + 1], b, d)
            == EnCeldaSala(filas[..i], b, d) + (if filas[i].bloque - 1 == b && filas[i].dia - 1 == d then [AsignaturaDe(filas[i])] else [])
  {
    assert filas[..i + 1][..i] == filas[..i];
  }

  /** One more entry is kept exactly when its key is new. */
  lemma SinDuplicadosMas(xs: seq<Asignatura>, a: Asignatura)
    ensures SinDuplicados(xs + [a]) == if Clave(a) in Claves(SinDuplicados(xs)) then SinDuplicados(xs) else SinDuplicados(xs) + [a]
  {
    assert (xs + [a])[..|xs|] == xs;
  }

  /** The loop state of mostrar_horario_para_sala: the grid so far and the keys shown per cell. */
  ghost predicate Mostradas(filas: seq<FilaSala>, tabla: seq<seq<seq<Asignatura>>>, mostradas: seq<seq<seq<string>>>) {
    GrillaDe(filas, tabla) && Forma(mostradas)
    && forall b, d :: 0 <= b < Bloques && 0 <= d < Dias ==> mostradas[b][d] == Claves(tabla[b][d])
  }

  /** One turn of the loop keeps the loop state. */
  lemma MostradasPaso(filas: seq<FilaSala>, i: nat, t: seq<seq<seq<Asignatura>>>, m: seq<seq<seq<string>>>)
    requires i < |filas| && Mostradas(filas[..i], t, m) && EnTabla(filas[i].bloque, filas[i].dia)
    ensures var f := filas[i]; var b := f.bloque - 1; var d := f.dia - 1; var clave := f.codigo + "-" + f.paralelo;
            var a := Asignatura(f.codigo, f.nombre, f.paralelo);
            if clave in m[b][d] then Mostradas(filas[..i + 1], t, m)
            else Mostradas(filas[..i + 1], Poner(t, b, d, t[b][d] + [a]), Poner(m, b, d, m[b][d] + [clave]))
  {
    var f := filas[i];
    var b := f.bloque - 1;
    var d := f.dia - 1;
    var a := AsignaturaDe(f);
    var t2 := if Clave(a) in Claves(t[b][d]) then t else Poner(t, b, d, t[b][d] + [a]);
    GrillaPaso(filas, i, t, t2);
    ClavesMas(t[b][d], a);
  }

  // ---------------------------------------------------------------------------
  // The grouping loop at the bottom of the page

  /** A group of result rows: the rows, and the room name shown in its heading. */
  datatype Grupo = Grupo(filas: seq<FilaSala>, nombreOriginal: string)

  /** The groups after the rows have gone through the loop in order. */
  function Grupos(resultados: seq<FilaSala>): (g: map<string, Grupo>)
    decreases |resultados|
  {
    if resultados == [] then map[]
    else
      var g := Grupos(resultados[..|resultados| - 1]);
      var f := resultados[|resultados| - 1];
      var base := ObtenerBaseSala(f.sala);
      g[base := Grupo((if base in g then g[base].filas else []) + [f], f.sala)]
  }

  /** The grouping loop: each row is appended to the group of its base name, which takes its room name. */
  method AgruparPorSala(resultados: seq<FilaSala>) returns (grupos: map<string, Grupo>)
    ensures grupos == Grupos(resultados)
  {
    grupos := map[];
    for i := 0 to |resultados|
      invariant grupos == Grupos(resultados[..i])
    {
      var row := resultados[i];
      var base := ObtenerBaseSala(row.sala);
      GruposPaso(resultados, i);
      var filas := if base in grupos then grupos[base].filas else [];
      grupos := grupos[base := Grupo(filas + [row], row.sala)];
    }
    assert resultados[..|resultados|] == resultados;
  }

  /** One more row updates only the group of its base name. */
  lemma GruposPaso(resultados: seq<FilaSala>, i: nat)
    requires i < |resultados|
    ensures var g := Grupos(resultados[..i]); var f := resultados[i]; var base := ObtenerBaseSala(f.sala);
            Grupos(resultados[..i + 1]) == g[base := Grupo((if base in g then g[base].filas else []) + [f], f.sala)]
  {
    assert resultados[..i + 1][..i] == resultados[..i];
  }

  /** The rows whose room has base name b, in order. */
  function DeBase(resultados: seq<FilaSala>, b: string): (fs: seq<FilaSala>)
    decreases |resultados|
  {
    if resultados == [] then []
    else
      var f := resultados[|resultados| - 1];
      DeBase(resultados[..|resultados| - 1], b) + (if ObtenerBaseSala(f.sala) == b then [f] else [])
  }

  /** The group of base name b holds exactly the rows of that base, and is named after the last of them. */
  predicate GrupoCorrecto(g: map<string, Grupo>, de: seq<FilaSala>, b: string)
  {
    (b in g <==> de != [])
    && (b in g ==> g[b].filas == de && g[b].nombreOriginal == de[|de| - 1].sala)
  }

  lemma {:induction false} GrupoDe(resultados: seq<FilaSala>, b: string)
    ensures GrupoCorrecto(Grupos(resultados), DeBase(resultados, b), b)
    decreases |resultados|
  {
    if resultados != [] {
      var previos := resultados[..|resultados| - 1];
      var f := resultados[|resultados| - 1];
      var g := Grupos(previos);
      GrupoDe(previos, b);
      assert GrupoCorrecto(g, DeBase(previos, b), b);
      if ObtenerBaseSala(f.sala) == b {
        assert DeBase(resultados, b) == DeBase(previos, b) + [f];
        assert Grupos(resultados)[b] == Grupo((if b in g then g[b].filas else []) + [f], f.sala);
      } else {
        assert DeBase(resultados, b) == DeBase(previos, b);
        assert b in Grupos(resultados) <==> b in g;
      }
    }
  }

  /** Grouping by base name partitions the rows: every base name with rows has a group holding them in order. */
  lemma GruposCorrectos(resultados: seq<FilaSala>)
    ensures forall b :: GrupoCorrecto(Grupos(resultados), DeBase(resultados, b), b)
  {
    forall b
      ensures GrupoCorrecto(Grupos(resultados), DeBase(resultados, b), b)
    {
      GrupoDe(resultados, b);
    }
  }
}
