/**
 * The two small readers of the scraper's settings: db_config.txt
 * (key=value lines) and piedmont_cred.txt (user and password on the first
 * two non-blank lines).  The file's lines are a parameter; None stands for
 * a file that could not be opened or read, which both readers catch.
 */
module PiedmontConfig {
  import opened Wrappers
  import opened Text

  // ---------------------------------------------------------------------------
  // db_config.txt

  /** The index of the first occurrence of c in s. */
  function PrimerIndice(s: string, c: char): (i: nat)
    requires c in s
    ensures i < |s| && s[i] == c && c !in s[..i]
  {
    if s[0] == c then 0
    else
      var j := PrimerIndice(s[1..], c);
      assert s[..j + 1] == [s[0]] + s[1..][..j];
      j + 1
  }

  /** A string that strip() leaves alone. */
  lemma StripSinBordes(s: string)
    requires NoEdgeSpace(s)
    ensures Strip(s) == s
  {
  }

  /** Every character of Strip(s) is a character of s. */
  lemma StripDentro(s: string, c: char)
    requires c in Strip(s)
    ensures c in s
  {
    StripInfijo(s);
    var i :| 0 <= i < |Strip(s)| && Strip(s)[i] == c;
    assert s[LeadingSpaces(s) + i] == c;
  }

  /**
   * What one line contributes: the stripped line, when it has an '=' and
   * does not start with '#', split at its first '=' into a stripped key
   * and a stripped value.
   */
  function Entrada(linea: string): (r: Option<(string, string)>)
    ensures r.Some? <==> '=' in Strip(linea) && !StartsWith(Strip(linea), "#")
    ensures r.Some? ==> NoEdgeSpace(r.value.0) && NoEdgeSpace(r.value.1)
  {
    var l := Strip(linea);
    if '=' in l && !StartsWith(l, "#") then
      var i := PrimerIndice(l, '=');
      Some((Strip(l[..i]), Strip(l[i + 1..])))
    else None
  }

  /** The key never holds an '='; the value may. */
  lemma EntradaClaveSinIgual(linea: string)
    requires Entrada(linea).Some?
    ensures '=' !in Entrada(linea).value.0
  {
    var l := Strip(linea);
    var i := PrimerIndice(l, '=');
    if '=' in Strip(l[..i]) {
      StripDentro(l[..i], '=');
    }
  }

  /** A written line key=value is read back as (key, value). */
  lemma EntradaDeLinea(clave: string, valor: string)
    requires NoEdgeSpace(clave) && NoEdgeSpace(valor) && '=' !in clave
    requires clave == [] || clave[0] != '#'
    ensures Entrada(clave + "=" + valor) == Some((clave, valor))
  {
    var l := clave + "=" + valor;
    assert NoEdgeSpace(l);
    StripSinBordes(l);
    assert l[|clave|] == '=';
    var i := PrimerIndice(l, '=');
    assert l[..|clave|] == clave;
    assert l[..i] == clave && l[i + 1..] == valor;
    StripSinBordes(clave);
    StripSinBordes(valor);
  }

  /** The entry of every line, in order. */
  function Entradas(lineas: seq<string>): (r: seq<Option<(string, string)>>)
    ensures |r| == |lineas|
    ensures forall i :: 0 <= i < |lineas| ==> r[i] == Entrada(lineas[i])
    decreases |lineas|
  {
    if lineas == [] then []
    else Entradas(lineas[..|lineas| - 1]) + [Entrada(lineas[|lineas| - 1])]
  }

  /** The dictionary built from entries in order, a later entry overwriting an earlier one. */
  function Plegar(es: seq<Option<(string, string)>>): map<string, string>
    decreases |es|
  {
    if es == [] then map[]
    else
      var d := Plegar(es[..|es| - 1]);
      match es[|es| - 1]
      case None => d
      case Some(kv) => d[kv.0 := kv.1]
  }

  /** config_dict after reading the given lines. */
  function Config(lineas: seq<string>): map<string, string> {
    Plegar(Entradas(lineas))
  }

  /** Reading one more line. */
  lemma EntradasMas(lineas: seq<string>, n: nat)
    requires n < |lineas|
    ensures Entradas(lineas[..n + 1]) == Entradas(lineas[..n]) + [Entrada(lineas[n])]
  {
    assert lineas[..n + 1][..n] == lineas[..n];
  }

  /** Folding one more entry. */
  lemma PlegarMas(es: seq<Option<(string, string)>>, e: Option<(string, string)>)
    ensures Plegar(es + [e]) == if e.Some? then Plegar(es)[e.value.0 := e.value.1] else Plegar(es)
  {
    assert (es + [e])[..|es|] == es;
  }

  /** Entry `e` sets key `clave`. */
  predicate Fija(e: Option<(string, string)>, clave: string) {
    e.Some? && e.value.0 == clave
  }

  /** A key is present exactly when some entry sets it. */
  lemma {:induction false} PlegarPresente(es: seq<Option<(string, string)>>, clave: string)
    ensures clave in Plegar(es) <==> exists i :: 0 <= i < |es| && Fija(es[i], clave)
    decreases |es|
  {
    if es != [] {
      var n := |es| - 1;
      var previas := es[..n];
      PlegarPresente(previas, clave);
      if Fija(es[n], clave) {
        assert clave in Plegar(es);
      } else {
        assert clave in Plegar(es) <==> clave in Plegar(previas);
        if clave in Plegar(previas) {
          var i :| 0 <= i < n && Fija(previas[i], clave);
          assert Fija(es[i], clave);
        }
        if exists i :: 0 <= i < |es| && Fija(es[i], clave) {
          var i :| 0 <= i < |es| && Fija(es[i], clave);
          assert Fija(previas[i], clave);
        }
      }
    }
  }

  /** A present key holds the value of the last entry that sets it. */
  lemma {:induction false} PlegarUltima(es: seq<Option<(string, string)>>, clave: string)
    requires clave in Plegar(es)
    ensures exists i :: 0 <= i < |es| && es[i] == Some((clave, Plegar(es)[clave]))
                        && forall j :: i < j < |es| ==> !Fija(es[j], clave)
    decreases |es|
  {
    var n := |es| - 1;
    var previas := es[..n];
    if Fija(es[n], clave) {
      assert es[n] == Some((clave, Plegar(es)[clave]));
    } else {
      assert Plegar(es)[clave] == Plegar(previas)[clave];
      PlegarUltima(previas, clave);
      var i :| 0 <= i < n && previas[i] == Some((clave, Plegar(previas)[clave]))
               && forall j :: i < j < n ==> !Fija(previas[j], clave);
      assert es[i] == Some((clave, Plegar(es)[clave]));
      forall j | i < j < |es|
        ensures !Fija(es[j], clave)
      {
        if j < n {
          assert es[j] == previas[j];
        }
      }
    }
  }

  /**
   * Read back over the lines: a key is present exactly when some line sets
   * it, and then it holds the value of the last line that does.
   */
  lemma ConfigUltima(lineas: seq<string>, clave: string)
    ensures clave in Config(lineas) <==> exists i :: 0 <= i < |lineas| && Fija(Entrada(lineas[i]), clave)
    ensures clave in Config(lineas) ==>
              exists i :: 0 <= i < |lineas| && Entrada(lineas[i]) == Some((clave, Config(lineas)[clave]))
                          && forall j :: i < j < |lineas| ==> !Fija(Entrada(lineas[j]), clave)
  {
    var es := Entradas(lineas);
    PlegarPresente(es, clave);
    if clave in Config(lineas) {
      PlegarUltima(es, clave);
    }
  }

  /** The connection settings cargarConfigBDD requires. */
  predicate Completa(d: map<string, string>) {
    "host" in d && "user" in d && "password" in d && "database" in d
  }

  /** cargarConfigBDD: the settings when all four required keys are set, otherwise None. */
  method CargarConfigBDD(archivo: Option<seq<string>>) returns (r: Option<map<string, string>>)
    ensures archivo.None? ==> r.None?
    ensures archivo.Some? ==> r == if Completa(Config(archivo.value)) then Some(Config(archivo.value)) else None
  {
    if archivo.None? {
      return None;
    }
    var lineas := archivo.value;
    var d: map<string, string> := map[];
    for n := 0 to |lineas|
      invariant d == Plegar(Entradas(lineas[..n]))
    {
      EntradasMas(lineas, n);
      PlegarMas(Entradas(lineas[..n]), Entrada(lineas[n]));
      var linea := Strip(lineas[n]);
      if '=' in linea && !StartsWith(linea, "#") {
        var i := PrimerIndice(linea, '=');
        var clave, valor := linea[..i], linea[i + 1..];
        assert Entrada(lineas[n]) == Some((Strip(clave), Strip(valor)));
        d := d[Strip(clave) := Strip(valor)];
      } else {
        assert Entrada(lineas[n]).None?;
      }
    }
    assert lineas[..|lineas|] == lineas;
    if !("host" in d && "user" in d && "password" in d && "database" in d) {
      return None;
    }
    return Some(d);
  }

  // ---------------------------------------------------------------------------
  // piedmont_cred.txt

  /** [line.strip() for line in lines if line.strip()] */
  function NoVacias(lineas: seq<string>): (r: seq<string>)
    ensures |r| <= |lineas|
    ensures forall i :: 0 <= i < |r| ==> r[i] != [] && NoEdgeSpace(r[i])
    decreases |lineas|
  {
    if lineas == [] then []
    else
      var resto := NoVacias(lineas[1..]);
      if Strip(lineas[0]) != [] then [Strip(lineas[0])] + resto else resto
  }

  /** cargarCredenciales: user and password, or (None, None) with fewer than two non-blank lines. */
  function CargarCredenciales(archivo: Option<seq<string>>): (r: (Option<string>, Option<string>))
    ensures r.0.Some? <==> r.1.Some?
    ensures r.0.Some? <==> archivo.Some? && |NoVacias(archivo.value)| >= 2
    ensures r.0.Some? ==> r.0.value != [] && NoEdgeSpace(r.0.value) && r.1.value != [] && NoEdgeSpace(r.1.value)
  {
    if archivo.None? then (None, None)
    else
      var lineas := NoVacias(archivo.value);
      if |lineas| < 2 then (None, None) else (Some(lineas[0]), Some(lineas[1]))
  }

  /** Blank lines anywhere are skipped: the user and password are the first two lines with text, stripped. */
  lemma {:induction false} NoVaciasBlancas(lineas: seq<string>, blancas: seq<string>)
    requires forall i :: 0 <= i < |blancas| ==> Strip(blancas[i]) == []
    ensures NoVacias(blancas + lineas) == NoVacias(lineas)
    decreases |blancas|
  {
    if blancas == [] {
      assert blancas + lineas == lineas;
    } else {
      assert (blancas + lineas)[0] == blancas[0];
      assert forall i :: 0 <= i < |blancas[1..]| ==> Strip(blancas[1..][i]) == [];
      assert (blancas + lineas)[1..] == blancas[1..] + lineas;
      NoVaciasBlancas(lineas, blancas[1..]);
    }
  }

  /** A file holding the user, then blank lines, then the password yields that pair. */
  lemma CredencialesLeidas(usuario: string, blancas: seq<string>, clave: string, resto: seq<string>)
    requires usuario != [] && NoEdgeSpace(usuario) && clave != [] && NoEdgeSpace(clave)
    requires forall i :: 0 <= i < |blancas| ==> Strip(blancas[i]) == []
    ensures CargarCredenciales(Some([usuario] + blancas + [clave] + resto)) == (Some(usuario), Some(clave))
  {
    StripSinBordes(usuario);
    StripSinBordes(clave);
    var todo := [usuario] + blancas + [clave] + resto;
    assert todo[1..] == blancas + ([clave] + resto);
    NoVaciasBlancas([clave] + resto, blancas);
    assert ([clave] + resto)[1..] == resto;
  }
}
