/**
 * The compound-interest checker: the student picks the unknown among capital
 * `C`, nominal annual rate `i` (a percentage), time `n` in years, final
 * amount `M` and interest `I`, gives the number `m` of compounding periods a
 * year, the formula used and an answer. The page rejects the first missing
 * input, computes the true value from `M = C (1 + i/m)^(n·m)` and `I = M - C`
 * and accepts an answer within 1 % of it.
 *
 * The closed forms need `Math.pow` with a real exponent and `Math.log`; they
 * are a parameter `cerrada` of the model, which names each formula with its
 * inputs and says what number JavaScript gives for it.
 */
module InteresCompuesto {
  import opened Comun

  /** The quantity asked for (`m` is never the unknown). */
  datatype Campo = Capital | Tasa | Tiempo | Monto | Interes

  /** The text boxes, parsed; `None` is a box left empty. The rate is a percentage. */
  datatype Valores = Valores(capital: Option<real>, tasa: Option<real>, tiempo: Option<real>,
                             capitalizaciones: Option<real>, monto: Option<real>, interes: Option<real>)

  /** One of the three quantities for which the page solves from `M`, or else from `I`. */
  predicate Basico(f: Campo)
  {
    f == Capital || f == Tasa || f == Tiempo
  }

  // ---------------------------------------------------------------------------
  // Validation: the first failing check wins
  // ---------------------------------------------------------------------------

  /** The page's rejections, in the order it checks for them. */
  datatype Falla =
    | FaltaCapital
    | FaltaTasa
    | FaltaTiempo
    | FaltaCapitalizaciones
    | InteresSinDatos
    | FaltaFormula
    | FaltaRespuesta

  function Orden(f: Falla): nat
  {
    match f
    case FaltaCapital => 0
    case FaltaTasa => 1
    case FaltaTiempo => 2
    case FaltaCapitalizaciones => 3
    case InteresSinDatos => 4
    case FaltaFormula => 5
    case FaltaRespuesta => 6
  }

  /**
   * When the page's check for `f`, taken on its own, fails: an input other
   * than the unknown left empty, `m` left empty, the interest asked for with
   * neither `M` nor `C`, a blank formula or a blank answer.
   */
  predicate Condicion(f: Falla, incognita: Campo, v: Valores, formula: string, respuesta: Option<real>)
  {
    match f
    case FaltaCapital => incognita != Capital && v.capital.None?
    case FaltaTasa => incognita != Tasa && v.tasa.None?
    case FaltaTiempo => incognita != Tiempo && v.tiempo.None?
    case FaltaCapitalizaciones => v.capitalizaciones.None?
    case InteresSinDatos => incognita == Interes && v.monto.None? && v.capital.None?
    case FaltaFormula => EnBlanco(formula)
    case FaltaRespuesta => respuesta.None?
  }

  /** The inputs the formulas read are all filled in. */
  predicate Suficientes(incognita: Campo, v: Valores)
  {
    && (incognita != Capital ==> v.capital.Some?)
    && (incognita != Tasa ==> v.tasa.Some?)
    && (incognita != Tiempo ==> v.tiempo.Some?)
    && v.capitalizaciones.Some?
  }

  /**
   * The chain of early returns. The result is the failing check that comes
   * first, and there is none exactly when every check passes; the inputs
   * then suffice for the formulas.
   */
  function Validar(incognita: Campo, v: Valores, formula: string, respuesta: Option<real>): (r: Option<Falla>)
    ensures r.Some? ==>
      && Condicion(r.value, incognita, v, formula, respuesta)
      && forall g :: Orden(g) < Orden(r.value) ==> !Condicion(g, incognita, v, formula, respuesta)
    ensures r.None? ==> forall f :: !Condicion(f, incognita, v, formula, respuesta)
    ensures r.None? ==> Suficientes(incognita, v) && !EnBlanco(formula) && respuesta.Some?
  {
    if incognita != Capital && v.capital.None? then Some(FaltaCapital)
    else if incognita != Tasa && v.tasa.None? then Some(FaltaTasa)
    else if incognita != Tiempo && v.tiempo.None? then Some(FaltaTiempo)
    else if v.capitalizaciones.None? then Some(FaltaCapitalizaciones)
    else if incognita == Interes && v.monto.None? && v.capital.None? then Some(InteresSinDatos)
    else if EnBlanco(formula) then Some(FaltaFormula)
    else if respuesta.None? then Some(FaltaRespuesta)
    else None
  }

  /** No check fails exactly when the chain of early returns runs to its end. */
  lemma ValidarNinguna(incognita: Campo, v: Valores, formula: string, respuesta: Option<real>)
    ensures Validar(incognita, v, formula, respuesta).None?
        <==> forall f :: !Condicion(f, incognita, v, formula, respuesta)
  {
    var r := Validar(incognita, v, formula, respuesta);
    if r.Some? {
      assert Condicion(r.value, incognita, v, formula, respuesta);
    }
  }

  /**
   * "Para calcular I necesitas C o M" is never reported: with the interest
   * as the unknown, an empty capital is already rejected by the first check.
   */
  lemma InteresSinDatosInalcanzable(incognita: Campo, v: Valores, formula: string, respuesta: Option<real>)
    ensures Validar(incognita, v, formula, respuesta) != Some(InteresSinDatos)
    ensures Condicion(InteresSinDatos, incognita, v, formula, respuesta) ==>
      Validar(incognita, v, formula, respuesta) == Some(FaltaCapital)
  {
  }

  /**
   * `m` is required whatever the unknown: without it the page always
   * rejects, at the latest with the `m` message.
   */
  lemma CapitalizacionesObligatorias(incognita: Campo, v: Valores, formula: string, respuesta: Option<real>)
    requires v.capitalizaciones.None?
    ensures Validar(incognita, v, formula, respuesta).Some?
    ensures Orden(Validar(incognita, v, formula, respuesta).value) <= Orden(FaltaCapitalizaciones)
  {
    assert Condicion(FaltaCapitalizaciones, incognita, v, formula, respuesta);
  }

  // ---------------------------------------------------------------------------
  // The value of the unknown
  // ---------------------------------------------------------------------------

  /**
   * The closed forms that need `Math.pow` with a real exponent or
   * `Math.log`, each with the inputs it reads; `i` is the decimal rate.
   */
  datatype Formula =
    | MontoCompuesto(capital: real, i: real, tiempo: real, m: real)        // C (1 + i/m)^(n·m)
    | CapitalPorMonto(monto: real, i: real, tiempo: real, m: real)         // M / (1 + i/m)^(n·m)
    | CapitalPorInteres(interes: real, i: real, tiempo: real, m: real)     // I / ((1 + i/m)^(n·m) - 1)
    | TasaPorMonto(monto: real, capital: real, tiempo: real, m: real)      // m ((M/C)^(1/(n·m)) - 1)
    | TasaPorInteres(interes: real, capital: real, tiempo: real, m: real)  // m (((I + C)/C)^(1/(n·m)) - 1)
    | TiempoPorMonto(monto: real, capital: real, i: real, m: real)         // ln(M/C) / (m ln(1 + i/m))
    | TiempoPorInteres(interes: real, capital: real, i: real, m: real)     // ln((I + C)/C) / (m ln(1 + i/m))

  /** The final amount `C (1 + i/m)^(n·m)` computed from the other boxes. */
  function MontoCalculado(v: Valores, cerrada: Formula -> Numero): Numero
    requires Suficientes(Monto, v)
  {
    cerrada(MontoCompuesto(v.capital.value, v.tasa.value / 100.0, v.tiempo.value, v.capitalizaciones.value))
  }

  /**
   * The value the page computes for the unknown once every check passed.
   * The interest is the final amount less the capital, with the final amount
   * as given or else as computed; a basic unknown is solved from `M` when
   * given, else from `I`, and stays 0 with neither.
   */
  function ValorReal(incognita: Campo, v: Valores, cerrada: Formula -> Numero): (r: Numero)
    requires Suficientes(incognita, v)
    ensures incognita == Interes ==>
      r == Restar(if v.monto.Some? then Finito(v.monto.value) else MontoCalculado(v, cerrada), v.capital.value)
    ensures Basico(incognita) && v.monto.None? && v.interes.None? ==> r == Finito(0.0)
  {
    match incognita
    case Monto => MontoCalculado(v, cerrada)
    case Interes =>
      if v.monto.Some? then Finito(v.monto.value - v.capital.value)
      else Restar(MontoCalculado(v, cerrada), v.capital.value)
    case Capital =>
      if v.monto.Some? then
        cerrada(CapitalPorMonto(v.monto.value, v.tasa.value / 100.0, v.tiempo.value, v.capitalizaciones.value))
      else if v.interes.Some? then
        cerrada(CapitalPorInteres(v.interes.value, v.tasa.value / 100.0, v.tiempo.value, v.capitalizaciones.value))
      else Finito(0.0)
    case Tasa =>
      if v.monto.Some? then
        Escalar(cerrada(TasaPorMonto(v.monto.value, v.capital.value, v.tiempo.value, v.capitalizaciones.value)), 100.0)
      else if v.interes.Some? then
        Escalar(cerrada(TasaPorInteres(v.interes.value, v.capital.value, v.tiempo.value, v.capitalizaciones.value)), 100.0)
      else Finito(0.0)
    case Tiempo =>
      if v.monto.Some? then
        cerrada(TiempoPorMonto(v.monto.value, v.capital.value, v.tasa.value / 100.0, v.capitalizaciones.value))
      else if v.interes.Some? then
        cerrada(TiempoPorInteres(v.interes.value, v.capital.value, v.tasa.value / 100.0, v.capitalizaciones.value))
      else Finito(0.0)
  }

  /** What the page says. */
  datatype Mensaje = Rechazo(falla: Falla) | Correcto | Incorrecto(valorReal: Numero)

  /**
   * The `switch` on the unknown: `valorReal` starts at 0 and the branch of
   * the unknown overwrites it.
   */
  method Resolver(incognita: Campo, v: Valores, cerrada: Formula -> Numero) returns (valorReal: Numero)
    requires Suficientes(incognita, v)
    ensures valorReal == ValorReal(incognita, v, cerrada)
  {
    valorReal := Finito(0.0);
    match incognita {
      case Monto =>
        valorReal := MontoCalculado(v, cerrada);
      case Interes =>
        if v.monto.Some? {
          valorReal := Finito(v.monto.value - v.capital.value);
        } else {
          var calculado := MontoCalculado(v, cerrada);
          valorReal := Restar(calculado, v.capital.value);
        }
      case Capital =>
        if v.monto.Some? {
          valorReal := cerrada(CapitalPorMonto(v.monto.value, v.tasa.value / 100.0, v.tiempo.value, v.capitalizaciones.value));
        } else if v.interes.Some? {
          valorReal := cerrada(CapitalPorInteres(v.interes.value, v.tasa.value / 100.0, v.tiempo.value, v.capitalizaciones.value));
        }
      case Tasa =>
        if v.monto.Some? {
          valorReal := Escalar(cerrada(TasaPorMonto(v.monto.value, v.capital.value, v.tiempo.value, v.capitalizaciones.value)), 100.0);
        } else if v.interes.Some? {
          valorReal := Escalar(cerrada(TasaPorInteres(v.interes.value, v.capital.value, v.tiempo.value, v.capitalizaciones.value)), 100.0);
        }
      case Tiempo =>
        if v.monto.Some? {
          valorReal := cerrada(TiempoPorMonto(v.monto.value, v.capital.value, v.tasa.value / 100.0, v.capitalizaciones.value));
        } else if v.interes.Some? {
          valorReal := cerrada(TiempoPorInteres(v.interes.value, v.capital.value, v.tasa.value / 100.0, v.capitalizaciones.value));
        }
    }
  }

  /**
   * The page's evaluation: the first failing check is reported with
   * `valorReal = 0`; otherwise the answer is judged against the computed
   * value with the 1 % rule.
   */
  method Evaluar(incognita: Campo, v: Valores, formula: string, respuesta: Option<real>,
                 cerrada: Formula -> Numero)
    returns (r: Evaluacion<Mensaje>)
    ensures Validar(incognita, v, formula, respuesta).Some? ==>
      r == Evaluacion(false, Finito(0.0), Rechazo(Validar(incognita, v, formula, respuesta).value))
    ensures Validar(incognita, v, formula, respuesta).None? ==>
      && respuesta.Some? && Suficientes(incognita, v)
      && r.valorReal == ValorReal(incognita, v, cerrada)
      && (r.correcto <==> Acepta(respuesta.value, r.valorReal))
      && r.mensaje == (if r.correcto then Correcto else Incorrecto(r.valorReal))
  {
    var falla := Validar(incognita, v, formula, respuesta);
    if falla.Some? {
      return Evaluacion(false, Finito(0.0), Rechazo(falla.value));
    }
    var valorReal := Resolver(incognita, v, cerrada);
    var correcto := Acepta(respuesta.value, valorReal);
    r := Evaluacion(correcto, valorReal, if correcto then Correcto else Incorrecto(valorReal));
  }

  // ---------------------------------------------------------------------------
  // Properties of the value computed
  // ---------------------------------------------------------------------------

  /**
   * With `M` given, the interest is `M - C` whatever the closed forms
   * return: no compounding is involved.
   */
  lemma InteresDesdeMonto(v: Valores, cerrada: Formula -> Numero, otra: Formula -> Numero)
    requires Suficientes(Interes, v) && v.monto.Some?
    ensures ValorReal(Interes, v, cerrada) == ValorReal(Interes, v, otra) == Finito(v.monto.value - v.capital.value)
  {
  }

  /**
   * Without `M`, the interest is the final amount the page computes for the
   * unknown `M` from the same boxes, less the capital.
   */
  lemma InteresEsMontoMenosCapital(v: Valores, cerrada: Formula -> Numero)
    requires Suficientes(Interes, v) && v.monto.None?
    ensures Suficientes(Monto, v)
    ensures ValorReal(Interes, v, cerrada) == Restar(ValorReal(Monto, v, cerrada), v.capital.value)
  {
  }

  /**
   * For a basic unknown a given `M` wins: the value does not depend on
   * whether `I` was given as well.
   */
  lemma PrefiereMonto(incognita: Campo, v: Valores, cerrada: Formula -> Numero)
    requires Basico(incognita) && Suficientes(incognita, v) && v.monto.Some?
    ensures ValorReal(incognita, v, cerrada) == ValorReal(incognita, v.(interes := None), cerrada)
  {
  }
}
