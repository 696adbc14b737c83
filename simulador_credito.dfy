/**
 * The loan simulator: from an amount, a nominal annual rate (a percentage), a
 * term in years and a number of payments per year it builds the amortization
 * table of the French system (constant payment) or of the German system
 * (constant principal), and sums its columns.
 *
 * Amounts and rates are exact reals. The number of periods `tiempo * m` is a
 * whole positive number here.
 */
module SimuladorCredito {
  import opened Comun

  /** One row of the table: period number, payment, principal, interest, balance. */
  datatype Cuota = Cuota(numero: nat, cuota: real, capital: real, interes: real, saldo: real)

  /** The amortization system chosen on the page. */
  datatype Sistema = Francesa | Alemana

  /** The four form fields, `None` when left empty. */
  datatype Datos = Datos(monto: Option<real>, tasaAnual: Option<real>, tiempo: Option<real>, pagosAnio: Option<real>)

  /** Why no table is produced. */
  datatype Falla = CamposIncompletos | ValoresNoPositivos

  datatype Totales = Totales(totalCuotas: real, totalCapital: real, totalInteres: real)

  // ---------------------------------------------------------------------------
  // Derived scalars
  // ---------------------------------------------------------------------------

  /** `x` raised to a natural power. */
  function Potencia(x: real, k: nat): real
  {
    if k == 0 then 1.0 else x * Potencia(x, k - 1)
  }

  lemma {:induction false} PotenciaAlMenosUno(x: real, k: nat)
    requires x >= 1.0
    ensures Potencia(x, k) >= 1.0
  {
    if k > 0 {
      PotenciaAlMenosUno(x, k - 1);
      assert x * Potencia(x, k - 1) >= Potencia(x, k - 1);
    }
  }

  /** For a base above 1 the powers strictly increase. */
  lemma {:induction false} PotenciaCreciente(x: real, j: nat, k: nat)
    requires x > 1.0 && j < k
    ensures 1.0 <= Potencia(x, j) < Potencia(x, k)
  {
    PotenciaAlMenosUno(x, j);
    PotenciaAlMenosUno(x, k - 1);
    if j < k - 1 {
      PotenciaCreciente(x, j, k - 1);
    }
    assert x * Potencia(x, k - 1) > Potencia(x, k - 1);
  }

  /** The number of periods `tiempo * m` is a whole number. */
  predicate PeriodosEnteros(tiempo: real, m: real)
  {
    (tiempo * m).Floor as real == tiempo * m
  }

  /** The number of payments `n = tiempo * m`. */
  function Periodos(tiempo: real, m: real): (n: nat)
    requires tiempo > 0.0 && m > 0.0 && PeriodosEnteros(tiempo, m)
    ensures n >= 1 && n as real == tiempo * m
  {
    assert tiempo * m > 0.0;
    (tiempo * m).Floor
  }

  /** The rate per period: the annual percentage over 100, over the payments per year. */
  function TasaPeriodo(tasaAnual: real, m: real): (i: real)
    requires m > 0.0
    ensures i * m * 100.0 == tasaAnual
    ensures tasaAnual > 0.0 ==> i > 0.0
  {
    tasaAnual / 100.0 / m
  }

  /**
   * The annuity payment `C * i * q / (q - 1)` for `q = (1+i)^n`: `n` payments
   * of it are worth `C` compounded over the `n` periods, and it exceeds the
   * first period's interest `C * i`, so every payment reduces the balance.
   */
  function Anualidad(C: real, i: real, q: real): (cuota: real)
    requires i > 0.0 && q > 1.0
    ensures cuota * (q - 1.0) == C * i * q
    ensures C > 0.0 ==> cuota > C * i
  {
    var numerador := i * q;
    var denominador := q - 1.0;
    CuotaSobreInteres(C, i, q);
    CuotaDenominador(C, i, q);
    (C * numerador) / denominador
  }

  /** The French payment `C * i * (1+i)^n / ((1+i)^n - 1)`; its denominator is positive. */
  function CuotaFrancesa(C: real, i: real, n: nat): (cuota: real)
    requires i > 0.0 && n >= 1
    ensures Potencia(1.0 + i, n) > 1.0
    ensures cuota * (Potencia(1.0 + i, n) - 1.0) == C * i * Potencia(1.0 + i, n)
    ensures C > 0.0 ==> cuota > C * i
  {
    PotenciaCreciente(1.0 + i, 0, n);
    Anualidad(C, i, Potencia(1.0 + i, n))
  }

  // ---------------------------------------------------------------------------
  // The balances the loops carry, and the reported balance
  // ---------------------------------------------------------------------------

  /** The unrounded French balance after `k` periods paying `cuota` each. */
  function SaldoFrances(C: real, i: real, cuota: real, k: nat): real
  {
    if k == 0 then C
    else
      var anterior := SaldoFrances(C, i, cuota, k - 1);
      anterior - (cuota - anterior * i)
  }

  /** The unrounded German balance after `k` periods repaying the share `c` each. */
  function SaldoAleman(C: real, c: real, k: nat): real
  {
    if k == 0 then C else SaldoAleman(C, c, k - 1) - c
  }

  /**
   * The balance a row shows: on the last period a balance under 0.01 is shown
   * as 0, and no row shows a negative balance.
   */
  function SaldoReportado(saldo: real, periodo: nat, n: nat): (r: real)
    ensures r >= 0.0
    ensures saldo < 0.0 ==> r == 0.0
    ensures periodo == n && saldo < 0.01 ==> r == 0.0
    ensures saldo >= 0.0 && (periodo != n || saldo >= 0.01) ==> r == saldo
  {
    var ajustado := if periodo == n && saldo < 0.01 then 0.0 else saldo;
    Max(0.0, ajustado)
  }

  // ---------------------------------------------------------------------------
  // The tables, row by row
  // ---------------------------------------------------------------------------

  /** Row `p` of the French table for amount `C`, rate `i`, payment `cuota` and `n` periods. */
  function FilaFrancesa(C: real, i: real, cuota: real, n: nat, p: nat): (fila: Cuota)
    requires p >= 1
    ensures fila.numero == p && fila.cuota == cuota
    ensures fila.cuota == fila.capital + fila.interes
    ensures fila.saldo >= 0.0
  {
    var interes := SaldoFrances(C, i, cuota, p - 1) * i;
    Cuota(p, cuota, cuota - interes, interes, SaldoReportado(SaldoFrances(C, i, cuota, p), p, n))
  }

  /** Row `p` of the German table for amount `C`, principal share `c`, rate `i` and `n` periods. */
  function FilaAlemana(C: real, c: real, i: real, n: nat, p: nat): (fila: Cuota)
    requires p >= 1
    ensures fila.numero == p && fila.capital == c
    ensures fila.cuota == fila.capital + fila.interes
    ensures fila.saldo >= 0.0
  {
    var interes := SaldoAleman(C, c, p - 1) * i;
    Cuota(p, c + interes, c, interes, SaldoReportado(SaldoAleman(C, c, p), p, n))
  }

  ghost function TablaFrancesa(C: real, i: real, n: nat): seq<Cuota>
    requires i > 0.0 && n >= 1
  {
    seq(n, k requires 0 <= k < n => FilaFrancesa(C, i, CuotaFrancesa(C, i, n), n, k + 1))
  }

  ghost function TablaAlemana(C: real, i: real, n: nat): seq<Cuota>
    requires n >= 1
  {
    seq(n, k requires 0 <= k < n => FilaAlemana(C, C / n as real, i, n, k + 1))
  }

  ghost function Tabla(sistema: Sistema, C: real, i: real, n: nat): seq<Cuota>
    requires i > 0.0 && n >= 1
  {
    match sistema
    case Francesa => TablaFrancesa(C, i, n)
    case Alemana => TablaAlemana(C, i, n)
  }

  // ---------------------------------------------------------------------------
  // The generators and the handler
  // ---------------------------------------------------------------------------

  /** What the generators and the handler accept once the form is validated. */
  predicate Validos(C: real, tasaAnual: real, tiempo: real, m: real)
  {
    C > 0.0 && tasaAnual > 0.0 && tiempo > 0.0 && m > 0.0 && PeriodosEnteros(tiempo, m)
  }

  /**
   * The French generator: the payment is computed once, then each period
   * charges interest on the running balance, pays the rest of the payment
   * off the principal and appends a row.
   */
  method GenerarTablaFrancesa(C: real, tasaAnual: real, tiempo: real, m: real) returns (tabla: seq<Cuota>)
    requires Validos(C, tasaAnual, tiempo, m)
    ensures tabla == TablaFrancesa(C, TasaPeriodo(tasaAnual, m), Periodos(tiempo, m))
  {
    var i := TasaPeriodo(tasaAnual, m);
    var n := Periodos(tiempo, m);
    var cuotaFija := CuotaFrancesa(C, i, n);
    var saldo := C;
    tabla := [];
    var periodo := 1;
    while periodo <= n
      invariant 1 <= periodo <= n + 1
      invariant |tabla| == periodo - 1
      invariant periodo <= n ==> saldo == SaldoFrances(C, i, cuotaFija, periodo - 1)
      invariant forall k :: 0 <= k < |tabla| ==> tabla[k] == FilaFrancesa(C, i, cuotaFija, n, k + 1)
    {
      PasoFrances(C, i, cuotaFija, n, periodo, saldo);
      var interes := saldo * i;
      var capital := cuotaFija - interes;
      saldo := saldo - capital;
      if periodo == n && saldo < 0.01 {
        saldo := 0.0;
      }
      tabla := tabla + [Cuota(periodo, cuotaFija, capital, interes, Max(0.0, saldo))];
      periodo := periodo + 1;
    }
    assert tabla == TablaFrancesa(C, i, n);
  }

  /**
   * The German generator: the principal share `C / n` is fixed, each period
   * charges interest on the running balance and adds it to that share.
   */
  method GenerarTablaAlemana(C: real, tasaAnual: real, tiempo: real, m: real) returns (tabla: seq<Cuota>)
    requires Validos(C, tasaAnual, tiempo, m)
    ensures tabla == TablaAlemana(C, TasaPeriodo(tasaAnual, m), Periodos(tiempo, m))
  {
    var i := TasaPeriodo(tasaAnual, m);
    var n := Periodos(tiempo, m);
    var capitalFijo := C / n as real;
    var saldo := C;
    tabla := [];
    var periodo := 1;
    while periodo <= n
      invariant 1 <= periodo <= n + 1
      invariant |tabla| == periodo - 1
      invariant periodo <= n ==> saldo == SaldoAleman(C, capitalFijo, periodo - 1)
      invariant forall k :: 0 <= k < |tabla| ==> tabla[k] == FilaAlemana(C, capitalFijo, i, n, k + 1)
    {
      PasoAleman(C, i, n, capitalFijo, periodo, saldo);
      var interes := saldo * i;
      var cuota := capitalFijo + interes;
      saldo := saldo - capitalFijo;
      if periodo == n && saldo < 0.01 {
        saldo := 0.0;
      }
      tabla := tabla + [Cuota(periodo, cuota, capitalFijo, interes, Max(0.0, saldo))];
      periodo := periodo + 1;
    }
    assert tabla == TablaAlemana(C, i, n);
  }

  /** One iteration of the French loop, from the balance it starts with. */
  lemma PasoFrances(C: real, i: real, cuota: real, n: nat, p: nat, saldo: real)
    requires p >= 1 && saldo == SaldoFrances(C, i, cuota, p - 1)
    ensures SaldoFrances(C, i, cuota, p) == saldo - (cuota - saldo * i)
    ensures FilaFrancesa(C, i, cuota, n, p)
         == Cuota(p, cuota, cuota - saldo * i, saldo * i, SaldoReportado(saldo - (cuota - saldo * i), p, n))
  {
    assert SaldoFrances(C, i, cuota, p) == saldo - (cuota - saldo * i);
    assert FilaFrancesa(C, i, cuota, n, p)
        == Cuota(p, cuota, cuota - saldo * i, saldo * i, SaldoReportado(SaldoFrances(C, i, cuota, p), p, n));
  }

  /** One iteration of the German loop, from the balance it starts with. */
  lemma PasoAleman(C: real, i: real, n: nat, c: real, p: nat, saldo: real)
    requires n >= 1 && p >= 1 && c == C / n as real && saldo == SaldoAleman(C, c, p - 1)
    ensures SaldoAleman(C, c, p) == saldo - c
    ensures FilaAlemana(C, c, i, n, p) == Cuota(p, c + saldo * i, c, saldo * i, SaldoReportado(saldo - c, p, n))
  {
  }

  predicate Completos(d: Datos)
  {
    d.monto.Some? && d.tasaAnual.Some? && d.tiempo.Some? && d.pagosAnio.Some?
  }

  predicate Positivos(d: Datos)
    requires Completos(d)
  {
    d.monto.value > 0.0 && d.tasaAnual.value > 0.0 && d.tiempo.value > 0.0 && d.pagosAnio.value > 0.0
  }

  /** When all four fields are filled in and positive, they make a whole number of periods. */
  predicate PeriodosEnterosSiValidos(d: Datos)
  {
    Completos(d) && Positivos(d) ==> PeriodosEnteros(d.tiempo.value, d.pagosAnio.value)
  }

  /**
   * The "calculate" handler: refuses an incomplete form, then a form with a
   * value that is not positive (the rate included), and otherwise generates
   * the table of the chosen system.
   */
  method Calcular(d: Datos, sistema: Sistema) returns (r: Result<seq<Cuota>, Falla>)
    requires PeriodosEnterosSiValidos(d)
    ensures r == Failure(CamposIncompletos) <==> !Completos(d)
    ensures r == Failure(ValoresNoPositivos) <==> Completos(d) && !Positivos(d)
    ensures r.Success? <==> Completos(d) && Positivos(d)
    ensures r.Success? ==>
      var i := TasaPeriodo(d.tasaAnual.value, d.pagosAnio.value);
      i > 0.0 && r.value == Tabla(sistema, d.monto.value, i, Periodos(d.tiempo.value, d.pagosAnio.value))
  {
    if d.monto.None? || d.tasaAnual.None? || d.tiempo.None? || d.pagosAnio.None? {
      return Failure(CamposIncompletos);
    }
    var monto, tasa, tiempo, pagos := d.monto.value, d.tasaAnual.value, d.tiempo.value, d.pagosAnio.value;
    if monto <= 0.0 || tasa <= 0.0 || tiempo <= 0.0 || pagos <= 0.0 {
      return Failure(ValoresNoPositivos);
    }
    var tabla;
    if sistema == Francesa {
      tabla := GenerarTablaFrancesa(monto, tasa, tiempo, pagos);
    } else {
      tabla := GenerarTablaAlemana(monto, tasa, tiempo, pagos);
    }
    r := Success(tabla);
  }

  // ---------------------------------------------------------------------------
  // Totals
  // ---------------------------------------------------------------------------

  datatype Columna = ColCuota | ColCapital | ColInteres

  function Valor(fila: Cuota, col: Columna): real
  {
    match col
    case ColCuota => fila.cuota
    case ColCapital => fila.capital
    case ColInteres => fila.interes
  }

  /** No row holds a negative value in column `col`. */
  predicate NoNegativa(t: seq<Cuota>, col: Columna)
  {
    forall k :: 0 <= k < |t| ==> Valor(t[k], col) >= 0.0
  }

  /** The sum of one column, added from the first row on, as `reduce` does. */
  function Suma(t: seq<Cuota>, col: Columna): (r: real)
    ensures |t| == 1 ==> r == Valor(t[0], col)
  {
    if t == [] then 0.0
    else
      Suma(t[..|t| - 1], col) + Valor(t[|t| - 1], col)
  }

  /** A column with no negative value sums to a non-negative total. */
  lemma {:induction false} SumaNoNegativa(t: seq<Cuota>, col: Columna)
    requires NoNegativa(t, col)
    ensures Suma(t, col) >= 0.0
  {
    if t != [] {
      assert NoNegativa(t[..|t| - 1], col);
      SumaNoNegativa(t[..|t| - 1], col);
    }
  }

  predicate Descompuesta(t: seq<Cuota>)
  {
    forall k :: 0 <= k < |t| ==> t[k].cuota == t[k].capital + t[k].interes
  }

  lemma {:induction false} SumaDescompuesta(t: seq<Cuota>)
    ensures Descompuesta(t) ==> Suma(t, ColCuota) == Suma(t, ColCapital) + Suma(t, ColInteres)
  {
    if t != [] && Descompuesta(t) {
      SumaDescompuesta(t[..|t| - 1]);
    }
  }

  /**
   * The three column totals. When every row's payment is its principal plus
   * its interest, the total paid is the total principal plus the total interest.
   */
  function CalcularTotales(t: seq<Cuota>): (r: Totales)
    ensures Descompuesta(t) ==> r.totalCuotas == r.totalCapital + r.totalInteres
    ensures t == [] ==> r == Totales(0.0, 0.0, 0.0)
  {
    SumaDescompuesta(t);
    Totales(Suma(t, ColCuota), Suma(t, ColCapital), Suma(t, ColInteres))
  }

  // ---------------------------------------------------------------------------
  // The French table
  // ---------------------------------------------------------------------------

  /**
   * `i` times the balance after `k` periods is
   * `C * i * (1+i)^k - cuota * ((1+i)^k - 1)`.
   */
  predicate FormaFrancesa(C: real, i: real, cuota: real, k: nat)
  {
    SaldoFrances(C, i, cuota, k) * i == C * i * Potencia(1.0 + i, k) - cuota * (Potencia(1.0 + i, k) - 1.0)
  }

  /** For any payment the French balance follows `FormaFrancesa`. */
  lemma {:induction false} SaldoFrancesGeneral(C: real, i: real, cuota: real, k: nat)
    ensures FormaFrancesa(C, i, cuota, k)
  {
    if k > 0 {
      SaldoFrancesGeneral(C, i, cuota, k - 1);
      SaldoFrancesGeneralPaso(C, i, cuota, k);
    }
  }

  /** One period of `SaldoFrancesGeneral`: the formula for `k - 1` gives the one for `k`. */
  lemma SaldoFrancesGeneralPaso(C: real, i: real, cuota: real, k: nat)
    requires k >= 1 && FormaFrancesa(C, i, cuota, k - 1)
    ensures FormaFrancesa(C, i, cuota, k)
  {
    AlgebraPaso(C, i, cuota, SaldoFrances(C, i, cuota, k - 1), Potencia(1.0 + i, k - 1),
                SaldoFrances(C, i, cuota, k), Potencia(1.0 + i, k));
  }

  /**
   * With the annuity payment, the balance after `k` periods is
   * `C * ((1+i)^n - (1+i)^k) / ((1+i)^n - 1)`.
   */
  lemma SaldoFrancesCerrado(C: real, i: real, n: nat, k: nat)
    requires i > 0.0 && n >= 1
    ensures SaldoFrances(C, i, CuotaFrancesa(C, i, n), k) * (Potencia(1.0 + i, n) - 1.0)
         == C * (Potencia(1.0 + i, n) - Potencia(1.0 + i, k))
  {
    SaldoConCuota(C, i, CuotaFrancesa(C, i, n), Potencia(1.0 + i, n), k);
  }

  /** The closed form for any payment that satisfies the annuity equation with `q`. */
  lemma SaldoConCuota(C: real, i: real, cuota: real, q: real, k: nat)
    requires i != 0.0 && cuota * (q - 1.0) == C * i * q
    ensures SaldoFrances(C, i, cuota, k) * (q - 1.0) == C * (q - Potencia(1.0 + i, k))
  {
    SaldoFrancesGeneral(C, i, cuota, k);
    AlgebraCerrado(C, i, cuota, q, Potencia(1.0 + i, k), SaldoFrances(C, i, cuota, k));
  }

  /** The annuity payment pays the loan off exactly: the balance after `n` periods is 0. */
  lemma SaldoFrancesFinal(C: real, i: real, n: nat)
    requires i > 0.0 && n >= 1
    ensures SaldoFrances(C, i, CuotaFrancesa(C, i, n), n) == 0.0
  {
    SaldoFrancesCerrado(C, i, n, n);
    PotenciaCreciente(1.0 + i, 0, n);
  }

  /** Before the last period the French balance is positive and strictly falling. */
  lemma SaldoFrancesDecreciente(C: real, i: real, n: nat, k: nat)
    requires C > 0.0 && i > 0.0 && n >= 1 && k < n
    ensures SaldoFrances(C, i, CuotaFrancesa(C, i, n), k) > SaldoFrances(C, i, CuotaFrancesa(C, i, n), k + 1) >= 0.0
  {
    var cuota := CuotaFrancesa(C, i, n);
    PotenciaCreciente(1.0 + i, 0, n);
    CapitalFrancesPositivo(C, i, cuota, k);
    SaldoFrancesNoNegativo(C, i, cuota, n, k + 1);
  }

  /** A payment above the first interest repays some principal in every period. */
  lemma CapitalFrancesPositivo(C: real, i: real, cuota: real, k: nat)
    requires i > 0.0 && cuota > C * i
    ensures cuota - SaldoFrances(C, i, cuota, k) * i > 0.0
  {
    PotenciaAlMenosUno(1.0 + i, k);
    SaldoFrancesGeneral(C, i, cuota, k);
    AlgebraCapital(C, i, cuota, Potencia(1.0 + i, k), SaldoFrances(C, i, cuota, k));
  }

  /** With the annuity payment no balance up to period `n` is negative. */
  lemma SaldoFrancesNoNegativo(C: real, i: real, cuota: real, n: nat, k: nat)
    requires C > 0.0 && i > 0.0 && k <= n
    requires Potencia(1.0 + i, n) > 1.0
    requires cuota * (Potencia(1.0 + i, n) - 1.0) == C * i * Potencia(1.0 + i, n)
    ensures SaldoFrances(C, i, cuota, k) >= 0.0
  {
    var q, p := Potencia(1.0 + i, n), Potencia(1.0 + i, k);
    PotenciaHasta(1.0 + i, k, n);
    SaldoConCuota(C, i, cuota, q, k);
    AlgebraNoNegativo(C, q, p, SaldoFrances(C, i, cuota, k));
  }

  lemma PotenciaHasta(x: real, j: nat, k: nat)
    requires x > 1.0 && j <= k
    ensures Potencia(x, j) <= Potencia(x, k)
  {
    if j < k {
      PotenciaCreciente(x, j, k);
    }
  }

  /**
   * The French principal share of each period is the previous one times `1 + i`
   * (it grows as the interest shrinks).
   */
  lemma FrancesCapitalCrece(C: real, i: real, cuota: real, n: nat, p: nat)
    requires p >= 1
    ensures FilaFrancesa(C, i, cuota, n, p + 1).capital == FilaFrancesa(C, i, cuota, n, p).capital * (1.0 + i)
  {
    var s, s2 := SaldoFrances(C, i, cuota, p - 1), SaldoFrances(C, i, cuota, p);
    assert FilaFrancesa(C, i, cuota, n, p).capital == cuota - s * i;
    assert FilaFrancesa(C, i, cuota, n, p + 1).capital == cuota - s2 * i;
    AlgebraCapitalCrece(i, cuota, s, s2);
  }

  /** The balance row `p` of the French table shows is the exact balance after `p` periods. */
  lemma FilaFrancesaSaldo(C: real, i: real, n: nat, p: nat)
    requires C > 0.0 && i > 0.0 && 1 <= p <= n
    ensures var cuota := CuotaFrancesa(C, i, n);
      FilaFrancesa(C, i, cuota, n, p).saldo == SaldoFrances(C, i, cuota, p) >= 0.0
  {
    var cuota := CuotaFrancesa(C, i, n);
    if p == n {
      SaldoFrancesFinal(C, i, n);
    } else {
      SaldoFrancesDecreciente(C, i, n, p);
    }
  }

  /** `t` holds, row after row, the French rows for amount `C`, rate `i` and payment `cuota`. */
  predicate FilasFrancesas(t: seq<Cuota>, C: real, i: real, cuota: real, n: nat)
  {
    forall j :: 0 <= j < |t| ==> t[j] == FilaFrancesa(C, i, cuota, n, j + 1)
  }

  /** The French table is its `n` rows, in order. */
  lemma TablaFrancesaFilas(C: real, i: real, n: nat)
    requires i > 0.0 && n >= 1
    ensures |TablaFrancesa(C, i, n)| == n
    ensures FilasFrancesas(TablaFrancesa(C, i, n), C, i, CuotaFrancesa(C, i, n), n)
  {
  }

  /**
   * French rows are numbered from 1, all pay the annuity payment, split it
   * into principal and interest, and the first interest is `C * i`.
   */
  lemma FrancesaForma(t: seq<Cuota>, C: real, i: real, n: nat)
    requires i > 0.0 && |t| == n >= 1 && FilasFrancesas(t, C, i, CuotaFrancesa(C, i, n), n)
    ensures forall k :: 0 <= k < n ==> t[k].numero == k + 1 && t[k].cuota == CuotaFrancesa(C, i, n)
    ensures Descompuesta(t)
    ensures t[0].interes == C * i
  {
  }

  /** No French row shows a negative balance, and the last one shows 0. */
  lemma FrancesaSaldos(t: seq<Cuota>, C: real, i: real, n: nat)
    requires C > 0.0 && i > 0.0 && |t| == n >= 1 && FilasFrancesas(t, C, i, CuotaFrancesa(C, i, n), n)
    ensures forall k :: 0 <= k < n ==> t[k].saldo >= 0.0
    ensures t[n - 1].saldo == 0.0
  {
    forall k | 0 <= k < n
      ensures t[k].saldo >= 0.0
    {
      FilaFrancesaSaldo(C, i, n, k + 1);
    }
    FilaFrancesaSaldo(C, i, n, n);
    SaldoFrancesFinal(C, i, n);
  }

  /** Each French row shows a smaller balance than the one before. */
  lemma FrancesaSaldoDecrece(t: seq<Cuota>, C: real, i: real, n: nat)
    requires C > 0.0 && i > 0.0 && |t| == n >= 1 && FilasFrancesas(t, C, i, CuotaFrancesa(C, i, n), n)
    ensures forall k :: 0 < k < n ==> t[k].saldo < t[k - 1].saldo
  {
    forall k | 0 < k < n
      ensures t[k].saldo < t[k - 1].saldo
    {
      FilaFrancesaSaldo(C, i, n, k);
      FilaFrancesaSaldo(C, i, n, k + 1);
      SaldoFrancesDecreciente(C, i, n, k);
    }
  }

  /** The interest of each French row is `i` times the balance the row before shows. */
  lemma FrancesaInteres(t: seq<Cuota>, C: real, i: real, n: nat)
    requires C > 0.0 && i > 0.0 && |t| == n >= 1 && FilasFrancesas(t, C, i, CuotaFrancesa(C, i, n), n)
    ensures forall k :: 0 < k < n ==> t[k].interes == t[k - 1].saldo * i
  {
    forall k | 0 < k < n
      ensures t[k].interes == t[k - 1].saldo * i
    {
      FilaFrancesaSaldo(C, i, n, k);
      FrancesaInteresEn(t, C, i, CuotaFrancesa(C, i, n), n, k);
    }
  }

  /**
   * For any payment, the interest of row `k + 1` is `i` times the balance
   * row `k` shows, once that shown balance is the exact one.
   */
  lemma FrancesaInteresEn(t: seq<Cuota>, C: real, i: real, cuota: real, n: nat, k: nat)
    requires |t| == n && 0 < k < n && FilasFrancesas(t, C, i, cuota, n)
    requires FilaFrancesa(C, i, cuota, n, k).saldo == SaldoFrances(C, i, cuota, k)
    ensures t[k].interes == t[k - 1].saldo * i
  {
    assert t[k] == FilaFrancesa(C, i, cuota, n, k + 1);
    assert t[k - 1] == FilaFrancesa(C, i, cuota, n, k);
  }

  /** The principal of each French row is the one before times `1 + i`. */
  lemma FrancesaCapitalCrece(t: seq<Cuota>, C: real, i: real, n: nat)
    requires i > 0.0 && |t| == n >= 1 && FilasFrancesas(t, C, i, CuotaFrancesa(C, i, n), n)
    ensures forall k :: 0 < k < n ==> t[k].capital == t[k - 1].capital * (1.0 + i)
  {
    FrancesaCapitalCreceCon(t, C, i, CuotaFrancesa(C, i, n), n);
  }

  /** For any payment, the principal column of French rows grows by the factor `1 + i`. */
  lemma FrancesaCapitalCreceCon(t: seq<Cuota>, C: real, i: real, cuota: real, n: nat)
    requires |t| == n && FilasFrancesas(t, C, i, cuota, n)
    ensures forall k :: 0 < k < n ==> t[k].capital == t[k - 1].capital * (1.0 + i)
  {
    forall k | 0 < k < n
      ensures t[k].capital == t[k - 1].capital * (1.0 + i)
    {
      FrancesaCapitalCreceEn(t[k - 1], t[k], C, i, cuota, n, k);
    }
  }

  /** Rows `k` and `k + 1` of a French table: the second repays `1 + i` times the principal of the first. */
  lemma FrancesaCapitalCreceEn(anterior: Cuota, fila: Cuota, C: real, i: real, cuota: real, n: nat, k: nat)
    requires k >= 1
    requires anterior == FilaFrancesa(C, i, cuota, n, k) && fila == FilaFrancesa(C, i, cuota, n, k + 1)
    ensures fila.capital == anterior.capital * (1.0 + i)
  {
    FrancesCapitalCrece(C, i, cuota, n, k);
  }

  // ---------------------------------------------------------------------------
  // The German table
  // ---------------------------------------------------------------------------

  /** The German balance after `k` periods is `C - k * c`. */
  lemma {:induction false} SaldoAlemanCerrado(C: real, c: real, k: nat)
    ensures SaldoAleman(C, c, k) == C - k as real * c
  {
    if k > 0 {
      SaldoAlemanCerrado(C, c, k - 1);
      AlgebraSucesor(k as real, (k - 1) as real, c);
    }
  }

  /**
   * With the share `c = C / n` the German balance stays between 0 and `C`
   * for the `n` periods and is exactly 0 after the last one.
   */
  lemma SaldoAlemanAcotado(C: real, c: real, n: nat, k: nat)
    requires C > 0.0 && n >= 1 && k <= n && c == C / n as real
    ensures c > 0.0
    ensures 0.0 <= SaldoAleman(C, c, k) <= C
    ensures k == n ==> SaldoAleman(C, c, k) == 0.0
  {
    SaldoAlemanCerrado(C, c, k);
    AlgebraResto(C, c, n as real, k as real, SaldoAleman(C, c, k));
  }

  /** A balance that is not negative, and 0 on the last period, is shown as it is. */
  lemma ReportadoExacto(saldo: real, periodo: nat, n: nat)
    requires saldo >= 0.0 && (periodo == n ==> saldo == 0.0)
    ensures SaldoReportado(saldo, periodo, n) == saldo
  {
  }

  /** The balance German row `p` shows is the exact balance after `p` periods, `C - p * c`. */
  lemma FilaAlemanaSaldo(C: real, c: real, i: real, n: nat, p: nat)
    requires C > 0.0 && 1 <= p <= n && c == C / n as real
    ensures FilaAlemana(C, c, i, n, p).saldo == SaldoAleman(C, c, p) == C - p as real * c
    ensures FilaAlemana(C, c, i, n, p).saldo >= 0.0
    ensures p == n ==> FilaAlemana(C, c, i, n, p).saldo == 0.0
  {
    SaldoAlemanAcotado(C, c, n, p);
    SaldoAlemanCerrado(C, c, p);
    ReportadoExacto(SaldoAleman(C, c, p), p, n);
  }

  /** `t` holds, row after row, the German rows for amount `C`, share `c`, rate `i` and `n` periods. */
  predicate FilasAlemanas(t: seq<Cuota>, C: real, c: real, i: real, n: nat)
  {
    forall j :: 0 <= j < |t| ==> t[j] == FilaAlemana(C, c, i, n, j + 1)
  }

  /** The German table is its `n` rows, in order, with the share `C / n`. */
  lemma TablaAlemanaFilas(C: real, i: real, n: nat)
    requires n >= 1
    ensures |TablaAlemana(C, i, n)| == n
    ensures FilasAlemanas(TablaAlemana(C, i, n), C, C / n as real, i, n)
  {
  }

  /**
   * German rows are numbered from 1, all repay the share `C / n`, add the
   * interest to it, and the first interest is `C * i`.
   */
  lemma AlemanaForma(t: seq<Cuota>, C: real, i: real, n: nat)
    requires |t| == n >= 1 && FilasAlemanas(t, C, C / n as real, i, n)
    ensures forall k :: 0 <= k < n ==> t[k].numero == k + 1 && t[k].capital == C / n as real
    ensures Descompuesta(t)
    ensures t[0].interes == C * i
  {
  }

  /** German row `k` shows the balance `C - (k + 1) * C / n`: never negative, 0 on the last row. */
  lemma AlemanaSaldos(t: seq<Cuota>, C: real, i: real, n: nat)
    requires C > 0.0 && |t| == n >= 1 && FilasAlemanas(t, C, C / n as real, i, n)
    ensures forall k :: 0 <= k < n ==> t[k].saldo == C - (k + 1) as real * (C / n as real) >= 0.0
    ensures t[n - 1].saldo == 0.0
  {
    forall k | 0 <= k < n
      ensures t[k].saldo == C - (k + 1) as real * (C / n as real) >= 0.0
    {
      FilaAlemanaSaldo(C, C / n as real, i, n, k + 1);
    }
    FilaAlemanaSaldo(C, C / n as real, i, n, n);
  }

  /** The shown German balances strictly decrease. */
  lemma AlemanaSaldoDecrece(t: seq<Cuota>, C: real, i: real, n: nat)
    requires C > 0.0 && |t| == n >= 1 && FilasAlemanas(t, C, C / n as real, i, n)
    ensures forall k :: 0 < k < n ==> t[k].saldo < t[k - 1].saldo
  {
    AlemanaSaldos(t, C, i, n);
    forall k | 0 < k < n
      ensures t[k].saldo < t[k - 1].saldo
    {
      CuotaParte(C, n, k);
    }
  }

  /** Consecutive balances of the closed form `C − k·C/n` differ by the positive share. */
  lemma CuotaParte(C: real, n: nat, k: nat)
    requires C > 0.0 && n >= 1
    ensures C - (k + 1) as real * (C / n as real) < C - k as real * (C / n as real)
  {
    assert C / n as real > 0.0;
  }

  /** The interest of each German row is `i` times the balance the row before shows. */
  lemma AlemanaInteres(t: seq<Cuota>, C: real, i: real, n: nat)
    requires C > 0.0 && |t| == n >= 1 && FilasAlemanas(t, C, C / n as real, i, n)
    ensures forall k :: 0 < k < n ==> t[k].interes == t[k - 1].saldo * i
  {
    var c := C / n as real;
    forall k | 0 < k < n
      ensures t[k].interes == t[k - 1].saldo * i
    {
      FilaAlemanaSaldo(C, c, i, n, k);
    }
  }

  /** With a positive rate each German payment is smaller than the one before. */
  lemma AlemanaCuotaDecrece(t: seq<Cuota>, C: real, i: real, n: nat)
    requires C > 0.0 && i > 0.0 && |t| == n >= 1 && FilasAlemanas(t, C, C / n as real, i, n)
    ensures forall k :: 0 < k < n ==> t[k].cuota < t[k - 1].cuota
  {
    var c := C / n as real;
    forall k | 0 < k < n
      ensures t[k].cuota < t[k - 1].cuota
    {
      SaldoAlemanAcotado(C, c, n, k);
      MenorPorFactor(SaldoAleman(C, c, k), SaldoAleman(C, c, k - 1), i);
    }
  }

  // ---------------------------------------------------------------------------
  // Totals of the two tables
  // ---------------------------------------------------------------------------

  /** A prefix sum grows by the value of the next row. */
  lemma SumaPrefijo(t: seq<Cuota>, k: nat, col: Columna)
    requires 1 <= k <= |t|
    ensures Suma(t[..k], col) == Suma(t[..k - 1], col) + Valor(t[k - 1], col)
  {
    assert t[..k][..k - 1] == t[..k - 1];
  }

  /** The first `k` French rows repay the amount lent less the balance still owed. */
  lemma {:induction false} FrancesCapitalPrefijo(t: seq<Cuota>, C: real, i: real, cuota: real, n: nat, k: nat)
    requires k <= |t| && FilasFrancesas(t, C, i, cuota, n)
    ensures Suma(t[..k], ColCapital) == C - SaldoFrances(C, i, cuota, k)
  {
    if k > 0 {
      FrancesCapitalPrefijo(t, C, i, cuota, n, k - 1);
      SumaPrefijo(t, k, ColCapital);
    }
  }

  /** The first `k` French rows pay `k` payments. */
  lemma {:induction false} FrancesCuotaPrefijo(t: seq<Cuota>, C: real, i: real, cuota: real, n: nat, k: nat)
    requires k <= |t| && FilasFrancesas(t, C, i, cuota, n)
    ensures Suma(t[..k], ColCuota) == k as real * cuota
  {
    if k > 0 {
      FrancesCuotaPrefijo(t, C, i, cuota, n, k - 1);
      SumaPrefijo(t, k, ColCuota);
      AlgebraSucesor(k as real, (k - 1) as real, cuota);
    }
  }

  /**
   * French totals: the principal repaid is the amount lent, the total paid is
   * `n` payments, and the interest is the difference.
   */
  lemma TotalesFrancesa(t: seq<Cuota>, C: real, i: real, n: nat)
    requires i > 0.0 && |t| == n >= 1 && FilasFrancesas(t, C, i, CuotaFrancesa(C, i, n), n)
    ensures var r := CalcularTotales(t);
      && r.totalCapital == C
      && r.totalCuotas == n as real * CuotaFrancesa(C, i, n)
      && r.totalInteres == r.totalCuotas - C
  {
    SaldoFrancesFinal(C, i, n);
    TotalesFilasFrancesas(t, C, i, CuotaFrancesa(C, i, n), n);
  }

  /** The totals of `n` French rows whose payment clears the balance in `n` periods. */
  lemma TotalesFilasFrancesas(t: seq<Cuota>, C: real, i: real, cuota: real, n: nat)
    requires |t| == n && FilasFrancesas(t, C, i, cuota, n) && SaldoFrances(C, i, cuota, n) == 0.0
    ensures var r := CalcularTotales(t);
      && r.totalCapital == C
      && r.totalCuotas == n as real * cuota
      && r.totalInteres == r.totalCuotas - C
  {
    assert t[..n] == t;
    FrancesCapitalPrefijo(t, C, i, cuota, n, n);
    FrancesCuotaPrefijo(t, C, i, cuota, n, n);
    assert Descompuesta(t);
  }

  /** The first `k` German rows repay `k` shares. */
  lemma {:induction false} AlemanCapitalPrefijo(t: seq<Cuota>, c: real, k: nat)
    requires k <= |t| && forall j :: 0 <= j < |t| ==> t[j].capital == c
    ensures Suma(t[..k], ColCapital) == k as real * c
  {
    if k > 0 {
      assert Valor(t[k - 1], ColCapital) == c;
      AlemanCapitalPrefijo(t, c, k - 1);
      SumaPrefijo(t, k, ColCapital);
      AlgebraSucesor(k as real, (k - 1) as real, c);
    }
  }

  /** The sum of the German balances at the start of the first `k` periods. */
  function SaldosAcumulados(C: real, c: real, k: nat): real
  {
    if k == 0 then 0.0 else SaldosAcumulados(C, c, k - 1) + SaldoAleman(C, c, k - 1)
  }

  /** The German interest charged over the first `k` periods. */
  function InteresesAcumulados(C: real, c: real, i: real, k: nat): real
  {
    if k == 0 then 0.0 else InteresesAcumulados(C, c, i, k - 1) + SaldoAleman(C, c, k - 1) * i
  }

  /** The first `k` German rows charge the German interest of those periods. */
  lemma {:induction false} AlemanInteresPrefijo(t: seq<Cuota>, C: real, c: real, i: real, n: nat, k: nat)
    requires k <= |t| && FilasAlemanas(t, C, c, i, n)
    ensures Suma(t[..k], ColInteres) == InteresesAcumulados(C, c, i, k)
  {
    if k > 0 {
      AlemanInteresPrefijo(t, C, c, i, n, k - 1);
      SumaPrefijo(t, k, ColInteres);
    }
  }

  /** The German interest of `k` periods is `i` times the sum of the balances they start from. */
  lemma {:induction false} InteresesAcumuladosSaldos(C: real, c: real, i: real, k: nat)
    ensures InteresesAcumulados(C, c, i, k) == SaldosAcumulados(C, c, k) * i
  {
    if k > 0 {
      InteresesAcumuladosSaldos(C, c, i, k - 1);
      Distribuir(SaldosAcumulados(C, c, k - 1), SaldoAleman(C, c, k - 1), i, SaldosAcumulados(C, c, k));
    }
  }

  /** The first `k` German balances add up to `k * C - c * k * (k - 1) / 2`. */
  predicate FormaAcumulada(C: real, c: real, k: nat)
  {
    SaldosAcumulados(C, c, k) == k as real * C - c * (k as real * (k as real - 1.0) / 2.0)
  }

  /** The sum of the German balances follows `FormaAcumulada`. */
  lemma {:induction false} SaldosAcumuladosCerrado(C: real, c: real, k: nat)
    ensures FormaAcumulada(C, c, k)
  {
    if k > 0 {
      SaldosAcumuladosCerrado(C, c, k - 1);
      SaldosAcumuladosPaso(C, c, k);
    }
  }

  /** One period of `SaldosAcumuladosCerrado`. */
  lemma SaldosAcumuladosPaso(C: real, c: real, k: nat)
    requires k >= 1 && FormaAcumulada(C, c, k - 1)
    ensures FormaAcumulada(C, c, k)
  {
    SaldoAlemanCerrado(C, c, k - 1);
    AlgebraAcumulado(C, c, k as real, (k - 1) as real, SaldosAcumulados(C, c, k - 1), SaldoAleman(C, c, k - 1));
  }

  /** Every German row repays the same share `c`. */
  lemma AlemanaCapitales(t: seq<Cuota>, C: real, c: real, i: real, n: nat)
    requires FilasAlemanas(t, C, c, i, n)
    ensures forall j :: 0 <= j < |t| ==> t[j].capital == c
  {
    forall j | 0 <= j < |t|
      ensures t[j].capital == c
    {
      assert t[j] == FilaAlemana(C, c, i, n, j + 1);
    }
  }

  /** The German rows repay exactly the amount lent. */
  lemma TotalCapitalAleman(t: seq<Cuota>, C: real, c: real, i: real, n: nat)
    requires |t| == n >= 1 && c == C / n as real && FilasAlemanas(t, C, c, i, n)
    ensures Suma(t, ColCapital) == C
  {
    assert t[..n] == t;
    AlemanaCapitales(t, C, c, i, n);
    AlemanCapitalPrefijo(t, c, n);
    AlgebraCuotas(C, c, n as real);
  }

  /** The German rows charge `i * C * (n + 1) / 2` interest: the rate on the average balance. */
  lemma TotalInteresAleman(t: seq<Cuota>, C: real, c: real, i: real, n: nat)
    requires |t| == n >= 1 && c == C / n as real && FilasAlemanas(t, C, c, i, n)
    ensures Suma(t, ColInteres) == i * C * (n as real + 1.0) / 2.0
  {
    assert t[..n] == t;
    AlemanInteresPrefijo(t, C, c, i, n, n);
    InteresAlemanCerrado(C, c, i, n);
  }

  /** The German interest accrued over all `n` periods is `i * C * (n + 1) / 2`. */
  lemma InteresAlemanCerrado(C: real, c: real, i: real, n: nat)
    requires n >= 1 && c == C / n as real
    ensures InteresesAcumulados(C, c, i, n) == i * C * (n as real + 1.0) / 2.0
  {
    InteresesAcumuladosSaldos(C, c, i, n);
    SaldosAcumuladosCerrado(C, c, n);
    AlgebraInteresTotal(C, c, i, n as real, SaldosAcumulados(C, c, n));
  }

  /**
   * German totals: the principal repaid is the amount lent, the interest is
   * `i * C * (n + 1) / 2`, and the total paid is their sum.
   */
  lemma TotalesAlemana(t: seq<Cuota>, C: real, i: real, n: nat)
    requires |t| == n >= 1 && FilasAlemanas(t, C, C / n as real, i, n)
    ensures var r := CalcularTotales(t);
      && r.totalCapital == C
      && r.totalInteres == i * C * (n as real + 1.0) / 2.0
      && r.totalCuotas == C + r.totalInteres
  {
    TotalCapitalAleman(t, C, C / n as real, i, n);
    TotalInteresAleman(t, C, C / n as real, i, n);
    AlemanaForma(t, C, i, n);
  }

  // ---------------------------------------------------------------------------
  // Real-arithmetic steps, kept apart so that each proof sees few products
  // ---------------------------------------------------------------------------

  /** Real-arithmetic step: `C * i * q / (q - 1) > C * i` when `q > 1`. */
  lemma CuotaSobreInteres(C: real, i: real, q: real)
    requires i > 0.0 && q > 1.0
    ensures C > 0.0 ==> (C * (i * q)) / (q - 1.0) > C * i
  {
    if C > 0.0 {
      var d := q - 1.0;
      var ci := C * i;
      assert ci > 0.0;
      assert C * (i * q) == ci * d + ci;
      assert (ci * d + ci) / d == ci + ci / d;
      assert ci / d > 0.0;
    }
  }

  lemma CuotaDenominador(C: real, i: real, q: real)
    requires q != 1.0
    ensures ((C * (i * q)) / (q - 1.0)) * (q - 1.0) == C * i * q
  {
  }

  /** One period of the French loop keeps the general balance formula. */
  lemma AlgebraPaso(C: real, i: real, cuota: real, s: real, p: real, s2: real, p2: real)
    requires s * i == C * i * p - cuota * (p - 1.0)
    requires s2 == s - (cuota - s * i) && p2 == (1.0 + i) * p
    ensures s2 * i == C * i * p2 - cuota * (p2 - 1.0)
  {
    calc {
      s2 * i;
      (s * i) * (1.0 + i) - cuota * i;
      (C * i * p - cuota * (p - 1.0)) * (1.0 + i) - cuota * i;
      C * i * ((1.0 + i) * p) - cuota * ((1.0 + i) * p - 1.0);
    }
  }

  /** From the general balance formula and the annuity equation to the closed form. */
  lemma AlgebraCerrado(C: real, i: real, cuota: real, q: real, p: real, s: real)
    requires i != 0.0
    requires cuota * (q - 1.0) == C * i * q
    requires s * i == C * i * p - cuota * (p - 1.0)
    ensures s * (q - 1.0) == C * (q - p)
  {
    calc {
      (s * (q - 1.0)) * i;
      (s * i) * (q - 1.0);
      (C * i * p - cuota * (p - 1.0)) * (q - 1.0);
      C * i * p * (q - 1.0) - (cuota * (q - 1.0)) * (p - 1.0);
      C * i * p * (q - 1.0) - C * i * q * (p - 1.0);
      (C * (q - p)) * i;
    }
    CancelarFactor(s * (q - 1.0), C * (q - p), i);
  }

  lemma CancelarFactor(x: real, y: real, f: real)
    requires f != 0.0 && x * f == y * f
    ensures x == y
  {
    assert (x - y) * f == 0.0;
  }

  /** The principal share of a period is `(1+i)^k * (cuota - C * i)`. */
  lemma AlgebraCapital(C: real, i: real, cuota: real, p: real, s: real)
    requires p >= 1.0 && cuota > C * i
    requires s * i == C * i * p - cuota * (p - 1.0)
    ensures cuota - s * i == p * (cuota - C * i) > 0.0
  {
  }

  /** One period multiplies the principal share by `1 + i`. */
  lemma AlgebraCapitalCrece(i: real, cuota: real, s: real, s2: real)
    requires s2 == s - (cuota - s * i)
    ensures cuota - s2 * i == (cuota - s * i) * (1.0 + i)
  {
  }

  /** A balance in closed form is not negative while the power stays below `q`. */
  lemma AlgebraNoNegativo(C: real, q: real, p: real, s: real)
    requires C > 0.0 && q > 1.0 && p <= q
    requires s * (q - 1.0) == C * (q - p)
    ensures s >= 0.0
  {
    SignoProducto(s, q - 1.0);
  }

  /** With a positive factor, a product has the sign of the other factor. */
  lemma SignoProducto(x: real, d: real)
    requires d > 0.0
    ensures x * d > 0.0 ==> x > 0.0
    ensures x * d >= 0.0 ==> x >= 0.0
  {
    if x < 0.0 {
      assert x * d < 0.0;
    }
  }

  /** `n` shares of `C / n` make `C`. */
  lemma AlgebraCuotas(C: real, c: real, n: real)
    requires n >= 1.0 && c == C / n
    ensures n * c == C
  {
  }

  /** `p` shares of `C / n` are at most `C`, for `p <= n`. */
  lemma AlgebraFraccion(C: real, n: real, p: real)
    requires C > 0.0 && n >= 1.0 && 0.0 <= p <= n
    ensures 0.0 <= p * (C / n) <= C
    ensures C / n > 0.0
  {
    assert C / n > 0.0;
    assert p * (C / n) <= n * (C / n);
  }

  /** What is left after `p` of `n` shares of `C / n` is between 0 and `C`, and 0 when `p = n`. */
  lemma AlgebraResto(C: real, c: real, n: real, p: real, s: real)
    requires n >= 1.0 && 0.0 <= p <= n
    requires c == C / n && s == C - p * c
    ensures C > 0.0 ==> 0.0 <= s <= C
    ensures p == n ==> s == 0.0
  {
    if C > 0.0 {
      AlgebraFraccion(C, n, p);
    }
    if p == n {
      AlgebraCuotas(C, c, n);
    }
  }

  lemma AlgebraSucesor(k: real, k1: real, x: real)
    requires k1 == k - 1.0
    ensures k1 * x + x == k * x
  {
  }

  lemma MenorPorFactor(a: real, b: real, f: real)
    requires a < b && f > 0.0
    ensures a * f < b * f
  {
  }

  lemma Distribuir(a: real, b: real, f: real, suma: real)
    requires suma == a + b
    ensures a * f + b * f == suma * f
  {
  }

  /** One more German balance `C - (k-1) * C/n` added to the sum of the earlier ones. */
  lemma AlgebraAcumulado(C: real, c: real, k: real, k1: real, previo: real, s: real)
    requires k1 == k - 1.0
    requires previo == k1 * C - c * (k1 * (k1 - 1.0) / 2.0)
    requires s == C - k1 * c
    ensures previo + s == k * C - c * (k * (k - 1.0) / 2.0)
  {
  }

  lemma AlgebraInteresTotal(C: real, c: real, i: real, n: real, a: real)
    requires n >= 1.0 && c == C / n
    requires a == n * C - c * (n * (n - 1.0) / 2.0)
    ensures a * i == i * C * (n + 1.0) / 2.0
  {
    AlgebraCuotas(C, c, n);
    assert c * (n * (n - 1.0) / 2.0) == (n * c) * (n - 1.0) / 2.0;
  }
}
