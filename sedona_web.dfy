/**
 * Helpers shared by the query pages of the web front end: PHP truthiness
 * of a request parameter, the room link that drops a leading "Sala", the
 * 10 x 7 timetable shape and the "1-2" .. "19-20" row labels.
 */
module SedonaWeb {
  import opened Wrappers
  import opened Text

  const Bloques: nat := 10
  const Dias: nat := 7

  /** A GET parameter after sanitising: None when it is absent. PHP treats "" and "0" as false. */
  predicate Truthy(p: Option<string>) {
    p.Some? && p.value != "" && p.value != "0"
  }

  /** A 1-based (block, day) pair that falls inside the timetable. */
  predicate EnTabla(bloque: int, dia: int) {
    1 <= bloque <= Bloques && 1 <= dia <= Dias
  }

  /** A timetable with 10 rows of 7 cells. */
  predicate Forma<T>(t: seq<seq<T>>) {
    |t| == Bloques && forall i :: 0 <= i < |t| ==> |t[i]| == Dias
  }

  /** A timetable with every cell holding `v`: array_fill(0, 10, array_fill(0, 7, v)). */
  function Llena<T>(v: T): (t: seq<seq<T>>)
    ensures Forma(t)
    ensures forall i, j :: 0 <= i < Bloques && 0 <= j < Dias ==> t[i][j] == v
  {
    seq(Bloques, _ => seq(Dias, _ => v))
  }

  /** The timetable with one cell replaced. */
  function Poner<T>(t: seq<seq<T>>, i: nat, j: nat, v: T): (r: seq<seq<T>>)
    requires Forma(t) && i < Bloques && j < Dias
    ensures Forma(r)
    ensures r[i][j] == v
    ensures forall a, b :: 0 <= a < Bloques && 0 <= b < Dias && (a, b) != (i, j) ==> r[a][b] == t[a][b]
  {
    t[i := t[i][j := v]]
  }

  /** Number of PCRE whitespace characters at the start of s. */
  function Blancos(s: string): (n: nat)
    ensures n <= |s|
    ensures forall k :: 0 <= k < n ==> IsPcreSpace(s[k])
    ensures n == |s| || !IsPcreSpace(s[n])
  {
    if s != [] && IsPcreSpace(s[0]) then 1 + Blancos(s[1..]) else 0
  }

  /** preg_replace('/^Sala\s+/i', '', s): the room code used in links. */
  function QuitarPrefijoSala(s: string): (r: string)
    ensures r == s || (|s| > 4 && EqualsIgnoreCase(s[..4], "sala") && IsPcreSpace(s[4]) && r == s[4 + Blancos(s[4..])..])
    ensures r != s ==> r == [] || !IsPcreSpace(r[0])
  {
    if |s| > 4 && EqualsIgnoreCase(s[..4], "sala") && IsPcreSpace(s[4]) then s[4 + Blancos(s[4..])..] else s
  }

  /** A link built from the text "Sala " + sala leads back to sala, whatever case "Sala" was written in. */
  lemma EnlaceDeCelda(sala: string)
    requires sala == [] || !IsPcreSpace(sala[0])
    ensures QuitarPrefijoSala("Sala " + sala) == sala
    ensures QuitarPrefijoSala("SALA " + sala) == sala
  {
    var s := "Sala " + sala;
    assert s[..4] == "Sala" && s[4..] == " " + sala;
    assert Blancos(s[4..]) == 1;
    var t := "SALA " + sala;
    assert t[..4] == "SALA" && t[4..] == " " + sala;
    assert Blancos(t[4..]) == 1;
  }

  /** A name that does not begin with the word "Sala" is linked unchanged. */
  lemma EnlaceSinPrefijo(s: string)
    requires |s| < 5 || !IsPcreSpace(s[4])
    ensures QuitarPrefijoSala(s) == s
  {
  }

  /** The label of timetable row i: "(2i+1)-(2i+2)". */
  function Etiqueta(i: nat): (r: string)
    ensures '-' in r
  {
    var r := NatToString(2 * i + 1) + "-" + NatToString(2 * i + 2);
    assert r[|NatToString(2 * i + 1)|] == '-';
    r
  }

  /** Two strings of digits joined by '-' give back their first part. */
  lemma PrimeraParte(a: string, b: string, c: string, d: string)
    requires forall k :: 0 <= k < |a| ==> IsDigit(a[k])
    requires forall k :: 0 <= k < |c| ==> IsDigit(c[k])
    requires a + "-" + b == c + "-" + d
    ensures a == c
  {
    var x := a + "-" + b;
    assert x == c + "-" + d;
    assert x[|a|] == '-' && x[|c|] == '-';
    assert forall k :: 0 <= k < |a| ==> IsDigit(x[k]);
    assert forall k :: 0 <= k < |c| ==> IsDigit(x[k]);
    assert x[..|a|] == a && x[..|c|] == c;
  }

  /** Different rows carry different labels. */
  lemma EtiquetasDistintas(i: nat, j: nat)
    requires Etiqueta(i) == Etiqueta(j)
    ensures i == j
  {
    PrimeraParte(NatToString(2 * i + 1), NatToString(2 * i + 2), NatToString(2 * j + 1), NatToString(2 * j + 2));
    NatToStringValue(2 * i + 1);
    NatToStringValue(2 * j + 1);
  }

  /** The first label is "1-2" and the last "19-20". */
  lemma EtiquetasExtremas()
    ensures Etiqueta(0) == "1-2"
    ensures Etiqueta(Bloques - 1) == "19-20"
  {
    assert NatToString(19) == "19";
    assert NatToString(20) == "20";
  }
}
