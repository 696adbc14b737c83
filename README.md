# Financial calculators: loan simulator and interest checkers

A Dafny model of the three calculation engines of a set of financial-math
study pages:

- **Loan simulator** (`SimuladorCredito`, `simulador_credito.dfy`).
  - From an amount `C`, a nominal annual rate (a percentage), a term in years and a number of
    payments per year, it builds an amortization table.
  - The table follows the French system (constant payment `C·i(1+i)^n / ((1+i)^n − 1)`) or the
    German system (constant principal `C/n`).
  - Each row holds the period number, the payment, the principal, the interest and the balance.
    The last balance is snapped to 0 when under 0.01, and balances are clamped at 0.
  - The three columns are then summed.
  - The two generators are loops proved against the row functions `FilaFrancesa` and
    `FilaAlemana`.
  - Lemmas about the rows and totals state the rest: the annuity clears the loan, balances stay
    non-negative and fall, German principal totals `C`, and so on.
- **Simple-interest checker** (`InteresSimple`, `interes_simple.dfy`).
  - The student chooses the unknown among `C`, `i`, `n`, `I`, `M`.
  - The page builds the list of required fields by `splice`/`push`.
  - It rejects missing fields, then a blank formula, then a blank answer.
  - It solves `I = C·i·n` or `M = C(1 + i·n)` for the unknown, preferring `I` over `M`.
  - It accepts an answer within 1 % of the value.
- **Compound-interest checker** (`InteresCompuesto`, `interes_compuesto.dfy`).
  - Its validation chain is first-failure-wins.
  - It chooses a branch, preferring `M` over `I`, and takes the `I = M − C` shortcut when `M` is
    given.
  - It applies the same 1 % rule.
  - The `Math.pow`/`Math.log` closed forms are a parameter of the model.

`Comun` (`comun.dfy`) holds the shared pieces:

- optional fields and results;
- the JavaScript division outcomes the pages can produce (finite, infinite, NaN);
- what `String.prototype.trim` removes;
- the 1 % acceptance rule.

Money and rates are exact `real`s. An empty text box is `None`.

## Model

| member | source | states |
|---|---|---|
| SimuladorCredito.Periodos | app/simulador-credito/page.tsx:38 | the number of payments `tiempo·m` is a whole number of at least 1 |
| SimuladorCredito.TasaPeriodo | app/simulador-credito/page.tsx:33-37 | the period rate times `m` times 100 is the annual percentage, and it is positive when that is |
| SimuladorCredito.Anualidad | app/simulador-credito/page.tsx:24-29 | the payment satisfies the annuity equation `cuota·(q − 1) = C·i·q`, and for `C > 0` exceeds the first interest `C·i` |
| SimuladorCredito.CuotaFrancesa | app/simulador-credito/page.tsx:24-29 | `(1+i)^n > 1`, so the denominator `(1+i)^n − 1` is positive and the division is defined; the payment satisfies the annuity equation with `q = (1+i)^n` and, for `C > 0`, exceeds the first interest `C·i` |
| SimuladorCredito.SaldoReportado | app/simulador-credito/page.tsx:49-59 | the shown balance is never negative, and a negative balance on any row is shown as exactly 0; on period `n` a balance under 0.01 is shown as 0; a non-negative balance on another row, or one of at least 0.01 on the last, is shown unchanged |
| SimuladorCredito.FilaFrancesa | app/simulador-credito/page.tsx:45-59 | French row `p` carries period number `p` and the fixed payment, its payment is principal + interest, and its shown balance is not negative |
| SimuladorCredito.FilaAlemana | app/simulador-credito/page.tsx:81-94 | German row `p` carries period number `p` and the share `c` as principal, its payment is principal + interest, and its shown balance is not negative |
| SimuladorCredito.GenerarTablaFrancesa | app/simulador-credito/page.tsx:31-65 | the loop yields exactly the French table: `n` rows, row `k` built from the balance after `k − 1` periods and the single payment computed before the loop |
| SimuladorCredito.GenerarTablaAlemana | app/simulador-credito/page.tsx:67-100 | the loop yields exactly the German table: `n` rows with principal `C/n`, interest on the running balance |
| SimuladorCredito.PasoFrances | app/simulador-credito/page.tsx:44-60 | one French iteration: interest = balance·i, principal = payment − interest, new balance = balance − principal, row pushed with the clamped balance |
| SimuladorCredito.PasoAleman | app/simulador-credito/page.tsx:80-95 | one German iteration: interest = balance·i, payment = share + interest, new balance = balance − share |
| SimuladorCredito.Calcular | app/simulador-credito/page.tsx:102-124 | an incomplete form fails with the first message, and only it does; a complete form with a value ≤ 0 (rate included) fails with the second; otherwise the chosen system's table is produced and the period rate is positive |
| SimuladorCredito.Suma | app/simulador-credito/page.tsx:127-129 | the `reduce` over one column, added from the first row on; a one-row table sums to that row's value |
| SimuladorCredito.SumaNoNegativa | app/simulador-credito/page.tsx:127-129 | a column with no negative value has a non-negative total |
| SimuladorCredito.SumaDescompuesta | app/simulador-credito/page.tsx:126-131 | when every row's payment is principal + interest, the column sums satisfy the same identity |
| SimuladorCredito.CalcularTotales | app/simulador-credito/page.tsx:126-132 | totalCuotas = totalCapital + totalInteres for decomposed rows; an empty table totals 0 |
| SimuladorCredito.SaldoFrancesGeneral | app/simulador-credito/page.tsx:41-47 | for any payment, `i·saldo_k = C·i·(1+i)^k − cuota·((1+i)^k − 1)` |
| SimuladorCredito.SaldoFrancesGeneralPaso | app/simulador-credito/page.tsx:45-47 | one loop step carries that closed form from `k − 1` to `k` |
| SimuladorCredito.SaldoConCuota | app/simulador-credito/page.tsx:40-47 | a payment satisfying the annuity equation for `q` gives `saldo_k·(q − 1) = C·(q − (1+i)^k)` |
| SimuladorCredito.SaldoFrancesCerrado | app/simulador-credito/page.tsx:24-47 | with the annuity payment, `saldo_k·((1+i)^n − 1) = C·((1+i)^n − (1+i)^k)` |
| SimuladorCredito.SaldoFrancesFinal | app/simulador-credito/page.tsx:40-52 | in exact arithmetic the annuity payment leaves an unrounded balance of exactly 0 after `n` periods: the snap only absorbs rounding |
| SimuladorCredito.SaldoFrancesDecreciente | app/simulador-credito/page.tsx:44-47 | before period `n` each French balance is strictly larger than the next, and the next is not negative |
| SimuladorCredito.CapitalFrancesPositivo | app/simulador-credito/page.tsx:45-47 | a payment above `C·i` repays some principal in every period |
| SimuladorCredito.SaldoFrancesNoNegativo | app/simulador-credito/page.tsx:44-47 | with the annuity payment no unrounded balance up to period `n` is negative |
| SimuladorCredito.FrancesCapitalCrece | app/simulador-credito/page.tsx:45-46 | the principal of row `p + 1` is that of row `p` times `1 + i` |
| SimuladorCredito.FilaFrancesaSaldo | app/simulador-credito/page.tsx:47-59 | the balance a French row shows is the exact unrounded balance, and it is not negative: clamp and snap never change it in exact arithmetic |
| SimuladorCredito.TablaFrancesaFilas | app/simulador-credito/page.tsx:44-60 | the French table has `n` rows and row `j` is `FilaFrancesa` of period `j + 1` |
| SimuladorCredito.FrancesaForma | app/simulador-credito/page.tsx:44-58 | rows are numbered 1..n in order, every payment is the one `cuotaFija`, payment = principal + interest, first interest `C·i` |
| SimuladorCredito.FrancesaSaldos | app/simulador-credito/page.tsx:47-59 | no French row shows a negative balance and the last shows 0 |
| SimuladorCredito.FrancesaSaldoDecrece | app/simulador-credito/page.tsx:44-59 | the shown French balances strictly decrease |
| SimuladorCredito.FrancesaInteres | app/simulador-credito/page.tsx:45-59 | each row's interest is `i` times the balance the previous row shows |
| SimuladorCredito.FrancesaCapitalCrece | app/simulador-credito/page.tsx:45-46 | each row's principal is the previous one times `1 + i` |
| SimuladorCredito.SaldoAlemanCerrado | app/simulador-credito/page.tsx:76-83 | the German balance after `k` periods is `C − k·c` |
| SimuladorCredito.SaldoAlemanAcotado | app/simulador-credito/page.tsx:76-87 | with `c = C/n` the balance stays in `[0, C]` for `k ≤ n` and is exactly 0 at `k = n` |
| SimuladorCredito.ReportadoExacto | app/simulador-credito/page.tsx:85-94 | a non-negative balance that is 0 on the last period is shown unchanged |
| SimuladorCredito.FilaAlemanaSaldo | app/simulador-credito/page.tsx:80-94 | German row `p` shows `C − p·C/n`, never negative, 0 on the last row |
| SimuladorCredito.TablaAlemanaFilas | app/simulador-credito/page.tsx:80-95 | the German table has `n` rows and row `j` is `FilaAlemana` of period `j + 1` with share `C/n` |
| SimuladorCredito.AlemanaForma | app/simulador-credito/page.tsx:76-95 | rows are numbered 1..n, every principal is `C/n`, payment = principal + interest, first interest `C·i` |
| SimuladorCredito.AlemanaSaldos | app/simulador-credito/page.tsx:83-94 | row `k` shows `C − (k+1)·C/n ≥ 0` and the last row shows 0 |
| SimuladorCredito.AlemanaSaldoDecrece | app/simulador-credito/page.tsx:83-94 | the shown German balances strictly decrease |
| SimuladorCredito.AlemanaInteres | app/simulador-credito/page.tsx:81-83 | each row's interest is `i` times the balance the previous row shows |
| SimuladorCredito.AlemanaCuotaDecrece | app/simulador-credito/page.tsx:81-83 | with a positive rate every German payment is smaller than the one before |
| SimuladorCredito.SumaPrefijo | app/simulador-credito/page.tsx:127-129 | a running column sum grows by the next row's value |
| SimuladorCredito.FrancesCapitalPrefijo | app/simulador-credito/page.tsx:128 | the first `k` French principals add up to `C − saldo_k` |
| SimuladorCredito.FrancesCuotaPrefijo | app/simulador-credito/page.tsx:127 | the first `k` French payments add up to `k·cuota` |
| SimuladorCredito.TotalesFilasFrancesas | app/simulador-credito/page.tsx:126-132 | for `n` French rows whose payment clears the loan: total principal `C`, total paid `n·cuota`, total interest their difference |
| SimuladorCredito.TotalesFrancesa | app/simulador-credito/page.tsx:126-132 | the same for the annuity payment of the French table |
| SimuladorCredito.AlemanaCapitales | app/simulador-credito/page.tsx:92 | every German row repays the same share |
| SimuladorCredito.AlemanCapitalPrefijo | app/simulador-credito/page.tsx:128 | `k` rows with principal `c` add up to `k·c` |
| SimuladorCredito.AlemanInteresPrefijo | app/simulador-credito/page.tsx:129 | the first `k` German interests add up to the interest accrued over `k` periods |
| SimuladorCredito.InteresesAcumuladosSaldos | app/simulador-credito/page.tsx:81 | the interest accrued over `k` periods is `i` times the sum of the balances the periods start from |
| SimuladorCredito.SaldosAcumuladosCerrado | app/simulador-credito/page.tsx:77-83 | the first `k` German balances add up to `k·C − c·k(k−1)/2` |
| SimuladorCredito.SaldosAcumuladosPaso | app/simulador-credito/page.tsx:83 | one period carries that closed form from `k − 1` to `k` |
| SimuladorCredito.TotalCapitalAleman | app/simulador-credito/page.tsx:128 | the German principals add up to exactly `C` |
| SimuladorCredito.TotalInteresAleman | app/simulador-credito/page.tsx:129 | the German interests add up to `i·C·(n+1)/2` |
| SimuladorCredito.InteresAlemanCerrado | app/simulador-credito/page.tsx:81-83 | with `c = C/n` the interest accrued over all `n` periods is `i·C·(n+1)/2` |
| SimuladorCredito.TotalesAlemana | app/simulador-credito/page.tsx:126-132 | German totals: principal `C`, interest `i·C·(n+1)/2`, total paid their sum |
| InteresSimple.CamposRequeridos | app/interes-simple/page.tsx:24-47 | the list holds exactly the required fields, in page order without repeats. The required fields are the basic ones but the unknown, plus `I` if given or else `M` if given when the unknown is basic. For unknown `I` or `M` the list is `C, i, n` |
| InteresSimple.Faltantes | app/interes-simple/page.tsx:49 | the filter keeps exactly the listed fields left empty, and keeps their order |
| InteresSimple.FaltantesRequeridos | app/interes-simple/page.tsx:24-57 | nothing is missing exactly when every required field is filled in; `I` and `M` are never reported missing |
| InteresSimple.InteresDe | app/interes-simple/page.tsx:87-89 | `I = C·i·n` with the rate as a percentage: 0 when capital, rate or time is 0, and not negative when none of them is |
| InteresSimple.Factor | app/interes-simple/page.tsx:91-93 | `1 + i·n` is 1 when rate or time is 0 and at least 1 when both are non-negative |
| InteresSimple.MontoDe | app/interes-simple/page.tsx:91-93 | `M = C(1 + i·n)` is the capital plus its interest `C·i·n` |
| InteresSimple.CapitalPorInteres | app/interes-simple/page.tsx:96-98 | `I / (i·n)` is a finite capital that earns `I` whenever `i·n ≠ 0`, and not finite otherwise |
| InteresSimple.CapitalPorMonto | app/interes-simple/page.tsx:99-101 | `M / (1 + i·n)` is a finite capital that grows to `M` whenever `1 + i·n ≠ 0`, and not finite otherwise |
| InteresSimple.TasaPorInteres | app/interes-simple/page.tsx:105-107 | `I / (C·n) · 100` is a finite percentage that earns `I` whenever `C·n ≠ 0`, and not finite otherwise |
| InteresSimple.TasaPorMonto | app/interes-simple/page.tsx:108-110 | `(M − C) / (C·n) · 100` is a finite percentage that grows `C` to `M` whenever `C·n ≠ 0`, and not finite otherwise |
| InteresSimple.TiempoPorInteres | app/interes-simple/page.tsx:114-116 | `I / (C·i)` is a finite time that earns `I` whenever `C·i ≠ 0`, and not finite otherwise |
| InteresSimple.TiempoPorMonto | app/interes-simple/page.tsx:117-119 | `(M − C) / (C·i)` is a finite time that grows `C` to `M` whenever `C·i ≠ 0`, and not finite otherwise |
| InteresSimple.ValorReal | app/interes-simple/page.tsx:77-122 | for unknown `I` or `M` the value is finite; for a basic unknown with neither `I` nor `M` it stays 0 |
| InteresSimple.Resolver | app/interes-simple/page.tsx:84-122 | the `switch` assigns the value `ValorReal` defines |
| InteresSimple.Evaluar | app/interes-simple/page.tsx:22-134 | missing fields, then a blank formula, then a blank answer are rejected with `correcto = false` and value 0; the missing-fields message lists exactly the required empty fields in page order; otherwise the answer is accepted iff within 1 % of `ValorReal` |
| InteresSimple.CapitalDesdeInteres | app/interes-simple/page.tsx:87-98 | solving `I = C·i·n` for `C` gives back `C` when `i·n ≠ 0` |
| InteresSimple.CapitalDesdeMonto | app/interes-simple/page.tsx:91-102 | solving `M = C(1 + i·n)` for `C` gives back `C` when `1 + i·n ≠ 0` |
| InteresSimple.TasaDesdeInteres | app/interes-simple/page.tsx:79-107 | solving `I = C·i·n` for the rate gives back the percentage when `C·n ≠ 0` (÷100 on input, ×100 on output) |
| InteresSimple.TasaDesdeMonto | app/interes-simple/page.tsx:79-110 | solving `M = C(1 + i·n)` for the rate gives back the percentage when `C·n ≠ 0` |
| InteresSimple.TiempoDesdeInteres | app/interes-simple/page.tsx:87-116 | solving `I = C·i·n` for `n` gives back `n` when `C·i ≠ 0` |
| InteresSimple.TiempoDesdeMonto | app/interes-simple/page.tsx:91-119 | solving `M = C(1 + i·n)` for `n` gives back `n` when `C·i ≠ 0` |
| InteresSimple.PrefiereInteres | app/interes-simple/page.tsx:95-121 | with both `I` and `M` given a basic unknown is solved from `I`: removing `M` changes nothing |
| InteresSimple.DivisorCero | app/interes-simple/page.tsx:95-126 | for an unknown `C`, `i` or `n` solved from `I` (lines 98, 107, 116) with a zero divisor (`i·n`, `C·n` or `C·i`): a non-zero `I` yields infinity, which every answer matches; `I = 0` yields NaN, which no answer matches |
| Comun.Div | app/interes-simple/page.tsx:98 | JavaScript division of finite numbers: the quotient, infinity for a non-zero dividend over 0, NaN for 0/0 |
| Comun.Escalar | app/interes-simple/page.tsx:107 | multiplying by a non-zero constant keeps the kind of number and scales a finite value |
| Comun.Restar | app/interes-compuesto/page.tsx:110 | subtracting a finite number keeps the kind of number and shifts a finite value |
| Comun.Recortar | app/interes-simple/page.tsx:59 | `trim()` yields a text no longer than its input that is empty or starts and ends with a character `trim` keeps |
| Comun.RecortarTramo | app/interes-simple/page.tsx:59 | `trim()` returns a slice `s[a..b]` of its input with nothing but white space and line terminators before `a` and after `b`: it removes characters from the two ends only |
| Comun.RecortarVacio | app/interes-simple/page.tsx:59 | trimming leaves nothing exactly when every character is white space or a line terminator |
| Comun.EnBlanco | app/interes-compuesto/page.tsx:78-87 | `!x.trim()` holds exactly when every character of the box is white space or a line terminator |
| Comun.Acepta | app/interes-compuesto/page.tsx:146-148 | `abs(respuesta − v) <= abs(v·0.01)`: against a finite value, the closed interval `v ± abs(v)/100`; against infinity always; against NaN never |
| Comun.AceptaIntervalo | app/interes-simple/page.tsx:124-126 | the 1 % rule accepts exactly the closed interval `v ± abs(v)/100`: the exact value always, only 0 when the value is 0 |
| InteresCompuesto.Validar | app/interes-compuesto/page.tsx:32-94 | the result is the failing check that comes first in the order C, i, n, m, "I needs C or M", formula, answer; when there is none, no check fails and the formulas' inputs are filled in |
| InteresCompuesto.ValidarNinguna | app/interes-compuesto/page.tsx:32-94 | the chain runs to its end exactly when no check fails |
| InteresCompuesto.InteresSinDatosInalcanzable | app/interes-compuesto/page.tsx:33-76 | "Para calcular I necesitas C o M" is never produced: its condition is already rejected by the capital check |
| InteresCompuesto.CapitalizacionesObligatorias | app/interes-compuesto/page.tsx:60-67 | whatever the unknown, an empty `m` always ends in a rejection no later than the `m` message |
| InteresCompuesto.ValorReal | app/interes-compuesto/page.tsx:97-144 | the interest is `M − C` with `M` as given or else as computed; a basic unknown with neither `M` nor `I` stays 0 |
| InteresCompuesto.Resolver | app/interes-compuesto/page.tsx:97-144 | the `switch` assigns the value `ValorReal` defines |
| InteresCompuesto.Evaluar | app/interes-compuesto/page.tsx:23-157 | every rejection gives `correcto = false`, value 0 and the first failing check; otherwise the answer is accepted iff within 1 % of `ValorReal` |
| InteresCompuesto.InteresDesdeMonto | app/interes-compuesto/page.tsx:104-107 | with `M` given the interest is `M − C` whatever the closed forms return |
| InteresCompuesto.InteresEsMontoMenosCapital | app/interes-compuesto/page.tsx:100-111 | without `M` the interest is the amount computed for unknown `M` less `C` |
| InteresCompuesto.PrefiereMonto | app/interes-compuesto/page.tsx:113-143 | for a basic unknown a given `M` wins: also giving `I` changes nothing |

## Left out

- Text parsing with `parseFloat` is not modelled. Boxes are parsed reals or empty, so a box
  whose text parses to NaN is not represented.
- An answer that is not blank but is not a number is not represented either; the page would
  compare against NaN and reject it.
- Floating-point rounding is not modelled: arithmetic is exact. The `< 0.01` snap and the clamp
  at 0 are kept literally, but no bound on rounding drift is proved.
- Output formatting and effects are not modelled: `toFixed(2)`, `alert`, `window.print()`, the
  JSX and the React state. Stored values are returned instead.
- Messages are constructors. The missing-fields message carries the list of fields rather than
  the joined text.
- SimuladorCredito.Calcular: requires `tiempo·m` to be a whole number. With a fractional count
  the page's loop runs `⌊n⌋` times and the last-period snap never fires; that is not modelled.
- SimuladorCredito.GenerarTablaFrancesa: the same whole-number restriction on `tiempo·m`, for the
  same reason.
- SimuladorCredito.GenerarTablaAlemana: the same whole-number restriction on `tiempo·m`, for the
  same reason.
- No zero-rate branch (payment `C/n`) is modelled: the code has no such branch, it rejects a
  rate ≤ 0 (app/simulador-credito/page.tsx:114).
- Comun.Div: the sign of an infinity is not kept. The pages only use it inside `Math.abs`, where
  the sign does not matter.
- InteresCompuesto.ValorReal: `Math.pow` with a real exponent and `Math.log` are not modelled.
  They are the parameter `cerrada`, which maps each named closed form and its inputs to a
  JavaScript number. No property of those formulas, such as a round trip, is proved.
- The free-text formula box is only checked for being blank after `trim`.
- The static pages are not part of this model: app/page.tsx, app/layout.tsx and
  components/Sidebar.tsx are navigation and markup with no calculation.
