/**
 * The two small decisions of the interactive scraper's setup: the semester
 * code recommended for a date, and the campus menu whose choices are
 * translated to the campus codes of the registrar's site.
 */
module SedonaMenu {
  import opened Wrappers
  import opened Text

  // ---------------------------------------------------------------------------
  // Semester code

  /** The half of the year: January to July is semester 1, the rest semester 2. */
  function Semestre(mes: int): (c: char)
    ensures c == '1' || c == '2'
  {
    if 1 <= mes <= 7 then '1' else '2'
  }

  /**
   * determinarSemestreActual with the clock taken as parameters: the year in
   * decimal followed by the semester digit.
   */
  function DeterminarSemestreActual(anio: nat, mes: int): (r: string)
    ensures |r| >= 2 && forall i :: 0 <= i < |r| ==> IsDigit(r[i])
    ensures r[|r| - 1] == '1' <==> 1 <= mes <= 7
  {
    NatToString(anio) + [Semestre(mes)]
  }

  /** The code can be read back: all but its last digit give the year, the last the half. */
  lemma SemestreLegible(anio: nat, mes: int)
    ensures var r := DeterminarSemestreActual(anio, mes);
            DigitsValue(r[..|r| - 1]) == anio && (r[|r| - 1] == '2' <==> !(1 <= mes <= 7))
  {
    var r := DeterminarSemestreActual(anio, mes);
    assert r[..|r| - 1] == NatToString(anio);
    NatToStringValue(anio);
  }

  /** Four-digit years give the five-character code that the menus split as [:4]-[4:]. */
  lemma SemestreCincoCaracteres(anio: nat, mes: int)
    requires 1000 <= anio <= 9999
    ensures |DeterminarSemestreActual(anio, mes)| == 5
  {
    assert |NatToString(anio / 1000)| == 1;
    assert |NatToString(anio / 100)| == 2 by {
      assert (anio / 100) / 10 == anio / 1000;
    }
    assert |NatToString(anio / 10)| == 3 by {
      assert (anio / 10) / 10 == anio / 100;
    }
  }

  // ---------------------------------------------------------------------------
  // Campus menu

  /** The label printed for each menu choice. */
  function EtiquetaMenu(opcion: string): (r: Option<string>)
    ensures r.Some? <==> opcion in ["1", "2", "3", "4", "5"]
  {
    match opcion
    case "1" => Some("Casa Central")
    case "2" => Some("Concepción")
    case "3" => Some("Santiago San Joaquín")
    case "4" => Some("Santiago Vitacura")
    case "5" => Some("Viña del Mar")
    case _ => None
  }

  /**
   * prepararScraping's translation of a menu choice to the site's campus
   * code; None is "Campus inválido" (the prompt repeats).
   */
  function CampusSiga(opcion: string): (r: Option<string>)
    ensures r.Some? <==> opcion in ["1", "2", "3", "4", "5"]
  {
    if opcion !in ["1", "2", "3", "4", "5"] then None
    else if opcion == "2" then Some("4")
    else if opcion == "3" then Some("7")
    else if opcion == "4" then Some("2")
    else if opcion == "5" then Some("3")
    else Some(opcion)
  }

  /**
   * actualizarBaseDatos' name for a campus code; None stands for the
   * unbound `nombreCampus` an unknown code would leave.
   */
  function NombreCampus(codigo: string): (r: Option<string>)
    ensures r.Some? <==> codigo in ["1", "4", "7", "2", "3"]
  {
    match codigo
    case "1" => Some("Casa Central")
    case "4" => Some("Concepción")
    case "7" => Some("Santiago San Joaquín")
    case "2" => Some("Santiago Vitacura")
    case "3" => Some("Viña del Mar")
    case _ => None
  }

  /** The site code chosen from the menu names the campus whose label was shown. */
  lemma CampusCoherente(opcion: string)
    ensures CampusSiga(opcion).Some? ==> NombreCampus(CampusSiga(opcion).value) == EtiquetaMenu(opcion)
  {
  }

  /** Distinct choices give distinct codes, and every code the scraper names is reachable. */
  lemma CampusBiyectivo(a: string, b: string, codigo: string)
    ensures CampusSiga(a).Some? && CampusSiga(a) == CampusSiga(b) ==> a == b
    ensures NombreCampus(codigo).Some? <==> exists o :: o in ["1", "2", "3", "4", "5"] && CampusSiga(o) == Some(codigo)
  {
    if NombreCampus(codigo).Some? {
      var o := if codigo == "4" then "2" else if codigo == "7" then "3" else if codigo == "2" then "4"
               else if codigo == "3" then "5" else "1";
      assert CampusSiga(o) == Some(codigo);
    }
  }
}
