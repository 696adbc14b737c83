/**
 * The simple-interest checker: the student picks the unknown among capital
 * `C`, rate `i` (a percentage), time `n`, interest `I` and final amount `M`,
 * fills in the other fields, the formula used and an answer. The page works
 * out which fields it needs, rejects missing fields, an empty formula and an
 * empty answer in that order, solves `I = C·i·n` or `M = C(1 + i·n)` for
 * the unknown and accepts an answer within 1 % of the true value.
 */
module InteresSimple {
  import opened Comun

  /** The five quantities of the page, in the order the page lists them. */
  datatype Campo = Capital | Tasa | Tiempo | Interes | Monto

  /** The text boxes, parsed; `None` is a box left empty. The rate is a percentage. */
  datatype Valores = Valores(capital: Option<real>, tasa: Option<real>, tiempo: Option<real>,
                             interes: Option<real>, monto: Option<real>)

  function Valor(v: Valores, f: Campo): Option<real>
  {
    match f
    case Capital => v.capital
    case Tasa => v.tasa
    case Tiempo => v.tiempo
    case Interes => v.interes
    case Monto => v.monto
  }

  /** The box of `f` is filled in (a non-empty text is truthy in JavaScript). */
  predicate Dado(v: Valores, f: Campo)
  {
    Valor(v, f).Some?
  }

  /** Position of a field in the page's list `C, i, n, I, M`. */
  function Rango(f: Campo): nat
  {
    match f
    case Capital => 0
    case Tasa => 1
    case Tiempo => 2
    case Interes => 3
    case Monto => 4
  }

  /** The fields appear in the page's order, each at most once. */
  predicate Ordenado(s: seq<Campo>)
  {
    forall j, k :: 0 <= j < k < |s| ==> Rango(s[j]) < Rango(s[k])
  }

  /** One of the three quantities that appear in both formulas. */
  predicate Basico(f: Campo)
  {
    f == Capital || f == Tasa || f == Tiempo
  }

  /**
   * Which fields must be filled in when `incognita` is the unknown: the basic
   * quantities other than the unknown and, when the unknown is basic, the
   * interest if it was given or else the final amount if that was given.
   */
  predicate Requerido(incognita: Campo, v: Valores, f: Campo)
  {
    match f
    case Capital | Tasa | Tiempo => f != incognita
    case Interes => Basico(incognita) && Dado(v, Interes)
    case Monto => Basico(incognita) && !Dado(v, Interes) && Dado(v, Monto)
  }

  /** Every required field is filled in. */
  predicate Completo(incognita: Campo, v: Valores)
  {
    forall f :: Requerido(incognita, v, f) ==> Dado(v, f)
  }

  /**
   * The list of required fields: it starts as `C, i, n`; a basic unknown is
   * spliced out and `I`, or else `M`, is pushed when one of them was given.
   */
  method CamposRequeridos(incognita: Campo, v: Valores) returns (campos: seq<Campo>)
    ensures forall f :: f in campos <==> Requerido(incognita, v, f)
    ensures Ordenado(campos)
    ensures !Basico(incognita) ==> campos == [Capital, Tasa, Tiempo]
  {
    campos := [Capital, Tasa, Tiempo];
    if incognita == Interes {
    } else if incognita == Monto {
    } else if incognita == Capital {
      campos := campos[..0] + campos[1..];
      assert campos == [Tasa, Tiempo];
      if Dado(v, Interes) || Dado(v, Monto) {
        campos := campos + [if Dado(v, Interes) then Interes else Monto];
      }
    } else if incognita == Tasa {
      campos := campos[..1] + campos[2..];
      assert campos == [Capital, Tiempo];
      if Dado(v, Interes) || Dado(v, Monto) {
        campos := campos + [if Dado(v, Interes) then Interes else Monto];
      }
    } else {
      campos := campos[..2] + campos[3..];
      assert campos == [Capital, Tasa];
      if Dado(v, Interes) || Dado(v, Monto) {
        campos := campos + [if Dado(v, Interes) then Interes else Monto];
      }
    }
    OrdenadoAdyacente(campos);
  }

  /** A list whose neighbours are in order is in order. */
  lemma {:induction false} OrdenadoAdyacente(s: seq<Campo>)
    requires forall j :: 0 <= j < |s| - 1 ==> Rango(s[j]) < Rango(s[j + 1])
    ensures Ordenado(s)
  {
    if |s| > 1 {
      OrdenadoAdyacente(s[1..]);
      forall k | 1 <= k < |s|
        ensures Rango(s[0]) < Rango(s[k])
      {
        if k > 1 {
          assert Rango(s[1..][0]) < Rango(s[1..][k - 1]);
        }
      }
    }
  }

  /** The fields of `campos` that were left empty, in the same order (`filter`). */
  function Faltantes(campos: seq<Campo>, v: Valores): (r: seq<Campo>)
    ensures forall f :: f in r <==> f in campos && !Dado(v, f)
    ensures Ordenado(campos) ==> Ordenado(r)
  {
    if campos == [] then []
    else
      var resto := Faltantes(campos[1..], v);
      if Dado(v, campos[0]) then resto
      else
        assert Ordenado(campos) ==> forall k :: 0 <= k < |resto| ==> Rango(campos[0]) < Rango(resto[k])
          by {
            if Ordenado(campos) {
              forall k | 0 <= k < |resto|
                ensures Rango(campos[0]) < Rango(resto[k])
              {
                assert resto[k] in campos[1..];
                var j :| 0 <= j < |campos[1..]| && campos[1..][j] == resto[k];
                assert campos[j + 1] == resto[k];
              }
            }
          }
        [campos[0]] + resto
  }

  /**
   * For any list holding exactly the required fields, nothing is missing
   * precisely when the form is complete, and the interest and the final
   * amount are never reported missing: they are only asked for when given.
   */
  lemma FaltantesRequeridos(incognita: Campo, v: Valores, campos: seq<Campo>)
    requires forall f :: f in campos <==> Requerido(incognita, v, f)
    ensures Faltantes(campos, v) == [] <==> Completo(incognita, v)
    ensures forall f :: f in Faltantes(campos, v) ==> Basico(f)
  {
    var r := Faltantes(campos, v);
    if r != [] {
      assert r[0] in r;
    }
  }

  /** What the page says. */
  datatype Mensaje =
    | FaltanCampos(campos: seq<Campo>)
    | FaltaFormula
    | FaltaRespuesta
    | Correcto
    | Incorrecto(valorReal: Numero)

  /** The interest `C·i·n` for a rate `tasa` given as a percentage: none without time, rate or capital. */
  function InteresDe(capital: real, tasa: real, tiempo: real): (r: real)
    ensures capital == 0.0 || tasa == 0.0 || tiempo == 0.0 ==> r == 0.0
    ensures capital >= 0.0 && tasa >= 0.0 && tiempo >= 0.0 ==> r >= 0.0
  {
    ProductoNoNegativo(capital, tasa / 100.0, tiempo);
    capital * (tasa / 100.0) * tiempo
  }

  /** The growth factor `1 + i·n` for a rate `tasa` given as a percentage. */
  function Factor(tasa: real, tiempo: real): (r: real)
    ensures tasa == 0.0 || tiempo == 0.0 ==> r == 1.0
    ensures tasa >= 0.0 && tiempo >= 0.0 ==> r >= 1.0
  {
    ProductoNoNegativo(1.0, tasa / 100.0, tiempo);
    1.0 + tasa / 100.0 * tiempo
  }

  /** The final amount `C(1 + i·n)`: the capital plus its interest. */
  function MontoDe(capital: real, tasa: real, tiempo: real): (r: real)
    ensures r == capital + InteresDe(capital, tasa, tiempo)
  {
    Distribuye(capital, tasa / 100.0, tiempo);
    capital * Factor(tasa, tiempo)
  }

  /** `C = I / (i·n)`: a capital that earns `I`, or no finite one when `i·n` is 0. */
  function CapitalPorInteres(interes: real, tasa: real, tiempo: real): (r: Numero)
    ensures tasa * tiempo != 0.0 ==> r.Finito? && InteresDe(r.valor, tasa, tiempo) == interes
    ensures tasa * tiempo == 0.0 ==> !r.Finito?
  {
    Cociente(interes, tasa / 100.0 * tiempo);
    Div(interes, tasa / 100.0 * tiempo)
  }

  /** `C = M / (1 + i·n)`: a capital that grows to `M`, or no finite one when `1 + i·n` is 0. */
  function CapitalPorMonto(monto: real, tasa: real, tiempo: real): (r: Numero)
    ensures Factor(tasa, tiempo) != 0.0 ==> r.Finito? && MontoDe(r.valor, tasa, tiempo) == monto
    ensures Factor(tasa, tiempo) == 0.0 ==> !r.Finito?
  {
    Cociente(monto, Factor(tasa, tiempo));
    Div(monto, Factor(tasa, tiempo))
  }

  /** `i = I / (C·n)`, as a percentage: a rate that earns `I`, or no finite one when `C·n` is 0. */
  function TasaPorInteres(interes: real, capital: real, tiempo: real): (r: Numero)
    ensures capital * tiempo != 0.0 ==> r.Finito? && InteresDe(capital, r.valor, tiempo) == interes
    ensures capital * tiempo == 0.0 ==> !r.Finito?
  {
    TasaCociente(interes, capital, tiempo);
    Escalar(Div(interes, capital * tiempo), 100.0)
  }

  /** `i = (M - C) / (C·n)`, as a percentage: a rate that grows `C` to `M`, or no finite one when `C·n` is 0. */
  function TasaPorMonto(monto: real, capital: real, tiempo: real): (r: Numero)
    ensures capital * tiempo != 0.0 ==> r.Finito? && MontoDe(capital, r.valor, tiempo) == monto
    ensures capital * tiempo == 0.0 ==> !r.Finito?
  {
    TasaCociente(monto - capital, capital, tiempo);
    Escalar(Div(monto - capital, capital * tiempo), 100.0)
  }

  /** `n = I / (C·i)`: a time that earns `I`, or no finite one when `C·i` is 0. */
  function TiempoPorInteres(interes: real, capital: real, tasa: real): (r: Numero)
    ensures capital * tasa != 0.0 ==> r.Finito? && InteresDe(capital, tasa, r.valor) == interes
    ensures capital * tasa == 0.0 ==> !r.Finito?
  {
    TiempoCociente(interes, capital, tasa);
    Div(interes, capital * (tasa / 100.0))
  }

  /** `n = (M - C) / (C·i)`: a time that grows `C` to `M`, or no finite one when `C·i` is 0. */
  function TiempoPorMonto(monto: real, capital: real, tasa: real): (r: Numero)
    ensures capital * tasa != 0.0 ==> r.Finito? && MontoDe(capital, tasa, r.valor) == monto
    ensures capital * tasa == 0.0 ==> !r.Finito?
  {
    TiempoCociente(monto - capital, capital, tasa);
    Div(monto - capital, capital * (tasa / 100.0))
  }

  /** Real-arithmetic step: a product with a zero factor is 0, one of non-negative factors is not negative. */
  lemma ProductoNoNegativo(a: real, b: real, c: real)
    ensures a == 0.0 || b == 0.0 || c == 0.0 ==> a * b * c == 0.0
    ensures b == 0.0 || c == 0.0 ==> b * c == 0.0
    ensures a >= 0.0 && b >= 0.0 && c >= 0.0 ==> a * b * c >= 0.0 && b * c >= 0.0
  {
  }

  /** Real-arithmetic step: `a(1 + bc) = a + abc`. */
  lemma Distribuye(a: real, b: real, c: real)
    ensures a * (1.0 + b * c) == a + a * b * c
  {
  }

  /** Real-arithmetic step: dividing by a non-zero `d` and multiplying back is the identity. */
  lemma Cociente(a: real, d: real)
    ensures d != 0.0 ==> a / d * d == a
  {
  }

  /** Real-arithmetic step: the rate `a / (C·n)`, taken to a percentage and back, earns `a`. */
  lemma TasaCociente(a: real, C: real, n: real)
    ensures C * n != 0.0 ==> C * (a / (C * n) * 100.0 / 100.0) * n == a
  {
    if C * n != 0.0 {
      assert a / (C * n) * 100.0 / 100.0 == a / (C * n);
      assert C * (a / (C * n)) * n == a / (C * n) * (C * n);
    }
  }

  /** Real-arithmetic step: the time `a / (C·i)` earns `a`. */
  lemma TiempoCociente(a: real, C: real, t: real)
    ensures C * t != 0.0 ==> C * (t / 100.0) != 0.0 && C * (t / 100.0) * (a / (C * (t / 100.0))) == a
  {
  }

  /**
   * The value the page computes for the unknown once the form is complete.
   * For a basic unknown it solves from the interest when that was given and
   * else from the final amount; with neither it stays 0. A solved rate is
   * turned back into a percentage.
   */
  function ValorReal(incognita: Campo, v: Valores): (r: Numero)
    requires Completo(incognita, v)
    ensures !Basico(incognita) ==> r.Finito?
    ensures Basico(incognita) && !Dado(v, Interes) && !Dado(v, Monto) ==> r == Finito(0.0)
  {
    assert Requerido(incognita, v, Capital) ==> Dado(v, Capital);
    assert Requerido(incognita, v, Tasa) ==> Dado(v, Tasa);
    assert Requerido(incognita, v, Tiempo) ==> Dado(v, Tiempo);
    assert Requerido(incognita, v, Interes) ==> Dado(v, Interes);
    assert Requerido(incognita, v, Monto) ==> Dado(v, Monto);
    match incognita
    case Interes =>
      Finito(InteresDe(v.capital.value, v.tasa.value, v.tiempo.value))
    case Monto =>
      Finito(MontoDe(v.capital.value, v.tasa.value, v.tiempo.value))
    case Capital =>
      if Dado(v, Interes) then CapitalPorInteres(v.interes.value, v.tasa.value, v.tiempo.value)
      else if Dado(v, Monto) then CapitalPorMonto(v.monto.value, v.tasa.value, v.tiempo.value)
      else Finito(0.0)
    case Tasa =>
      if Dado(v, Interes) then TasaPorInteres(v.interes.value, v.capital.value, v.tiempo.value)
      else if Dado(v, Monto) then TasaPorMonto(v.monto.value, v.capital.value, v.tiempo.value)
      else Finito(0.0)
    case Tiempo =>
      if Dado(v, Interes) then TiempoPorInteres(v.interes.value, v.capital.value, v.tasa.value)
      else if Dado(v, Monto) then TiempoPorMonto(v.monto.value, v.capital.value, v.tasa.value)
      else Finito(0.0)
  }

  /**
   * The `switch` on the unknown: `valorReal` starts at 0 and the branch of
   * the unknown overwrites it.
   */
  method Resolver(incognita: Campo, v: Valores) returns (valorReal: Numero)
    requires Completo(incognita, v)
    ensures valorReal == ValorReal(incognita, v)
  {
    assert Requerido(incognita, v, Capital) ==> Dado(v, Capital);
    assert Requerido(incognita, v, Tasa) ==> Dado(v, Tasa);
    assert Requerido(incognita, v, Tiempo) ==> Dado(v, Tiempo);
    assert Requerido(incognita, v, Interes) ==> Dado(v, Interes);
    assert Requerido(incognita, v, Monto) ==> Dado(v, Monto);
    valorReal := Finito(0.0);
    match incognita {
      case Interes =>
        valorReal := Finito(InteresDe(v.capital.value, v.tasa.value, v.tiempo.value));
        assert valorReal == ValorReal(incognita, v);
      case Monto =>
        valorReal := Finito(MontoDe(v.capital.value, v.tasa.value, v.tiempo.value));
        assert valorReal == ValorReal(incognita, v);
      case Capital =>
        if Dado(v, Interes) {
          valorReal := CapitalPorInteres(v.interes.value, v.tasa.value, v.tiempo.value);
        } else if Dado(v, Monto) {
          valorReal := CapitalPorMonto(v.monto.value, v.tasa.value, v.tiempo.value);
        }
      case Tasa =>
        if Dado(v, Interes) {
          valorReal := TasaPorInteres(v.interes.value, v.capital.value, v.tiempo.value);
        } else if Dado(v, Monto) {
          valorReal := TasaPorMonto(v.monto.value, v.capital.value, v.tiempo.value);
        }
      case Tiempo =>
        if Dado(v, Interes) {
          valorReal := TiempoPorInteres(v.interes.value, v.capital.value, v.tasa.value);
        } else if Dado(v, Monto) {
          valorReal := TiempoPorMonto(v.monto.value, v.capital.value, v.tasa.value);
        }
    }
  }

  /**
   * The page's evaluation: missing fields, then the formula, then the answer
   * are checked, the first failure is reported with `valorReal = 0`, and
   * otherwise the answer is judged against the computed value.
   */
  method Evaluar(incognita: Campo, v: Valores, formula: string, respuesta: Option<real>)
    returns (r: Evaluacion<Mensaje>)
    ensures !Completo(incognita, v) ==>
      && !r.correcto && r.valorReal == Finito(0.0) && r.mensaje.FaltanCampos?
      && (forall f :: f in r.mensaje.campos <==> Requerido(incognita, v, f) && !Dado(v, f))
      && Ordenado(r.mensaje.campos)
    ensures Completo(incognita, v) && EnBlanco(formula) ==>
      r == Evaluacion(false, Finito(0.0), FaltaFormula)
    ensures Completo(incognita, v) && !EnBlanco(formula) && respuesta.None? ==>
      r == Evaluacion(false, Finito(0.0), FaltaRespuesta)
    ensures Completo(incognita, v) && !EnBlanco(formula) && respuesta.Some? ==>
      && r.valorReal == ValorReal(incognita, v)
      && (r.correcto <==> Acepta(respuesta.value, r.valorReal))
      && r.mensaje == (if r.correcto then Correcto else Incorrecto(r.valorReal))
  {
    var campos := CamposRequeridos(incognita, v);
    var faltantes := Faltantes(campos, v);
    FaltantesRequeridos(incognita, v, campos);
    if |faltantes| > 0 {
      return Evaluacion(false, Finito(0.0), FaltanCampos(faltantes));
    }
    if EnBlanco(formula) {
      return Evaluacion(false, Finito(0.0), FaltaFormula);
    }
    if respuesta.None? {
      return Evaluacion(false, Finito(0.0), FaltaRespuesta);
    }
    var valorReal := Resolver(incognita, v);
    var correcto := Acepta(respuesta.value, valorReal);
    r := Evaluacion(correcto, valorReal, if correcto then Correcto else Incorrecto(valorReal));
  }

  // ---------------------------------------------------------------------------
  // The solver branches invert the forward formulas
  // ---------------------------------------------------------------------------

  /** Solving `I = C·i·n` for `C` gives back the capital when `i·n` is not 0. */
  lemma CapitalDesdeInteres(v: Valores, C: real)
    requires v.tasa.Some? && v.tiempo.Some? && v.tasa.value * v.tiempo.value != 0.0
    requires v.interes == Some(InteresDe(C, v.tasa.value, v.tiempo.value))
    ensures Completo(Capital, v) && ValorReal(Capital, v) == Finito(C)
  {
    var i := v.tasa.value / 100.0;
    var n := v.tiempo.value;
    assert Requerido(Capital, v, Monto) ==> Dado(v, Monto);
    assert i * n != 0.0;
    assert C * i * n / (i * n) == C;
  }

  /** Solving `M = C(1 + i·n)` for `C` gives back the capital when `1 + i·n` is not 0. */
  lemma CapitalDesdeMonto(v: Valores, C: real)
    requires v.tasa.Some? && v.tiempo.Some? && 1.0 + v.tasa.value / 100.0 * v.tiempo.value != 0.0
    requires v.interes.None? && v.monto == Some(MontoDe(C, v.tasa.value, v.tiempo.value))
    ensures Completo(Capital, v) && ValorReal(Capital, v) == Finito(C)
  {
    var d := 1.0 + v.tasa.value / 100.0 * v.tiempo.value;
    assert Requerido(Capital, v, Interes) ==> Dado(v, Interes);
    assert C * d / d == C;
  }

  /** Solving `I = C·i·n` for the rate gives back the percentage when `C·n` is not 0. */
  lemma TasaDesdeInteres(v: Valores, tasa: real)
    requires v.capital.Some? && v.tiempo.Some? && v.capital.value * v.tiempo.value != 0.0
    requires v.interes == Some(InteresDe(v.capital.value, tasa, v.tiempo.value))
    ensures Completo(Tasa, v) && ValorReal(Tasa, v) == Finito(tasa)
  {
    var C := v.capital.value;
    var n := v.tiempo.value;
    assert Requerido(Tasa, v, Monto) ==> Dado(v, Monto);
    TasaRecuperada(C, n, tasa);
    assert ValorReal(Tasa, v) == Escalar(Div(InteresDe(C, tasa, n), C * n), 100.0);
  }

  /** Real-arithmetic step: the interest of rate `tasa`, over `C·n` and as a percentage, is `tasa`. */
  lemma TasaRecuperada(C: real, n: real, tasa: real)
    requires C * n != 0.0
    ensures C * (tasa / 100.0) * n / (C * n) * 100.0 == tasa
  {
    assert C * (tasa / 100.0) * n == tasa / 100.0 * (C * n);
  }

  /** Solving `M = C(1 + i·n)` for the rate gives back the percentage when `C·n` is not 0. */
  lemma TasaDesdeMonto(v: Valores, tasa: real)
    requires v.capital.Some? && v.tiempo.Some? && v.capital.value * v.tiempo.value != 0.0
    requires v.interes.None? && v.monto == Some(MontoDe(v.capital.value, tasa, v.tiempo.value))
    ensures Completo(Tasa, v) && ValorReal(Tasa, v) == Finito(tasa)
  {
    var C := v.capital.value;
    var n := v.tiempo.value;
    assert Requerido(Tasa, v, Interes) ==> Dado(v, Interes);
    assert MontoDe(C, tasa, n) - C == C * (tasa / 100.0) * n;
    assert C * (tasa / 100.0) * n / (C * n) == tasa / 100.0;
  }

  /** Solving `I = C·i·n` for the time gives it back when `C·i` is not 0. */
  lemma TiempoDesdeInteres(v: Valores, n: real)
    requires v.capital.Some? && v.tasa.Some? && v.capital.value * v.tasa.value != 0.0
    requires v.interes == Some(InteresDe(v.capital.value, v.tasa.value, n))
    ensures Completo(Tiempo, v) && ValorReal(Tiempo, v) == Finito(n)
  {
    var C := v.capital.value;
    var i := v.tasa.value / 100.0;
    assert Requerido(Tiempo, v, Monto) ==> Dado(v, Monto);
    assert C * i != 0.0;
    assert C * i * n / (C * i) == n;
  }

  /** Solving `M = C(1 + i·n)` for the time gives it back when `C·i` is not 0. */
  lemma TiempoDesdeMonto(v: Valores, n: real)
    requires v.capital.Some? && v.tasa.Some? && v.capital.value * v.tasa.value != 0.0
    requires v.interes.None? && v.monto == Some(MontoDe(v.capital.value, v.tasa.value, n))
    ensures Completo(Tiempo, v) && ValorReal(Tiempo, v) == Finito(n)
  {
    var C := v.capital.value;
    var i := v.tasa.value / 100.0;
    assert Requerido(Tiempo, v, Interes) ==> Dado(v, Interes);
    assert C * i != 0.0;
    assert MontoDe(C, v.tasa.value, n) - C == C * i * n;
    assert C * i * n / (C * i) == n;
  }

  /**
   * When both the interest and the final amount are given, a basic unknown
   * is solved from the interest: the final amount is ignored.
   */
  lemma PrefiereInteres(incognita: Campo, v: Valores)
    requires Basico(incognita) && Dado(v, Interes) && Completo(incognita, v)
    ensures Completo(incognita, v.(monto := None))
    ensures ValorReal(incognita, v) == ValorReal(incognita, v.(monto := None))
  {
    var w := v.(monto := None);
    forall f | Requerido(incognita, w, f)
      ensures Dado(w, f)
    {
      assert Requerido(incognita, v, f);
    }
  }

  /**
   * The divisor of the branch that solves the basic unknown `incognita` from
   * the interest is 0: `i·n` for the capital, `C·n` for the rate, `C·i` for
   * the time.
   */
  predicate DivisorNulo(incognita: Campo, v: Valores)
  {
    match incognita
    case Capital => v.tasa.Some? && v.tiempo.Some? && v.tasa.value * v.tiempo.value == 0.0
    case Tasa => v.capital.Some? && v.tiempo.Some? && v.capital.value * v.tiempo.value == 0.0
    case Tiempo => v.capital.Some? && v.tasa.Some? && v.capital.value * v.tasa.value == 0.0
    case Interes | Monto => false
  }

  /**
   * A basic unknown solved from the interest with a zero divisor gives
   * JavaScript's infinity, which any answer matches, or NaN when the interest
   * is 0 too, which no answer matches.
   */
  lemma DivisorCero(incognita: Campo, v: Valores, respuesta: real)
    requires Completo(incognita, v) && Dado(v, Interes) && DivisorNulo(incognita, v)
    ensures v.interes.value != 0.0 ==> ValorReal(incognita, v) == Infinito && Acepta(respuesta, ValorReal(incognita, v))
    ensures v.interes.value == 0.0 ==> ValorReal(incognita, v) == NaN && !Acepta(respuesta, ValorReal(incognita, v))
  {
    match incognita
    case Capital =>
      assert v.tasa.value / 100.0 * v.tiempo.value == 0.0;
    case Tasa =>
    case Tiempo =>
      assert v.capital.value * (v.tasa.value / 100.0) == 0.0;
  }
}
