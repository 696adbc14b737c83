/**
 * Definitions shared by the three calculator pages: form fields that may be
 * left empty, success-or-failure results, the few JavaScript number outcomes
 * the pages can produce by dividing, and the 1 % acceptance rule for a
 * student's answer.
 */
module Comun {

  /** A form field: `None` when the text box was left empty. */
  datatype Option<T> = None | Some(value: T)

  /** The outcome of a handler that either produces a value or rejects its input. */
  datatype Result<T, E> = Success(value: T) | Failure(error: E)

  function Abs(x: real): (r: real)
    ensures r >= 0.0 && (r == x || r == -x)
  {
    if x < 0.0 then -x else x
  }

  function Max(a: real, b: real): (r: real)
    ensures r >= a && r >= b && (r == a || r == b)
  {
    if a < b then b else a
  }

  /**
   * A JavaScript number as far as the pages can produce one from finite
   * inputs: a finite value, an infinity (a non-zero number divided by zero)
   * or NaN (zero divided by zero). The sign of an infinity is not kept: the
   * pages only ever take its absolute value.
   */
  datatype Numero = Finito(valor: real) | Infinito | NaN

  /** JavaScript `a / b` for finite `a` and `b`. */
  function Div(a: real, b: real): (r: Numero)
    ensures b != 0.0 ==> r == Finito(a / b)
    ensures b == 0.0 ==> (r == NaN <==> a == 0.0) && (r == Infinito <==> a != 0.0)
  {
    if b != 0.0 then Finito(a / b)
    else if a == 0.0 then NaN
    else Infinito
  }

  /** JavaScript `x * k` for a non-zero finite factor `k`. */
  function Escalar(x: Numero, k: real): (r: Numero)
    requires k != 0.0
    ensures r.Finito? <==> x.Finito?
    ensures x.Finito? ==> r.valor / k == x.valor
    ensures !x.Finito? ==> r == x
  {
    match x
    case Finito(v) => Finito(v * k)
    case Infinito => Infinito
    case NaN => NaN
  }

  /** JavaScript `x - c` for a finite `c`. */
  function Restar(x: Numero, c: real): (r: Numero)
    ensures r.Finito? <==> x.Finito?
    ensures x.Finito? ==> r.valor + c == x.valor
    ensures !x.Finito? ==> r == x
  {
    match x
    case Finito(v) => Finito(v - c)
    case Infinito => Infinito
    case NaN => NaN
  }

  /**
   * A character that JavaScript's `String.prototype.trim` removes: the
   * ECMAScript white space (tab, vertical tab, form feed, space, no-break
   * space, byte order mark and the other space separators) and the line
   * terminators (line feed, carriage return, line and paragraph separators).
   */
  predicate EsEspacio(ch: char)
  {
    var k := ch as int;
    k == 0x20 || 0x09 <= k <= 0x0D || k == 0xA0 || k == 0x1680 || 0x2000 <= k <= 0x200A
    || k == 0x2028 || k == 0x2029 || k == 0x202F || k == 0x205F || k == 0x3000 || k == 0xFEFF
  }

  /**
   * JavaScript `s.trim()`: white space and line terminators removed from both
   * ends, leaving a text that neither starts nor ends with one.
   */
  function Recortar(s: string): (r: string)
    ensures |r| <= |s|
    ensures r == [] || (!EsEspacio(r[0]) && !EsEspacio(r[|r| - 1]))
    decreases |s|
  {
    if s == [] then []
    else if EsEspacio(s[0]) then Recortar(s[1..])
    else if EsEspacio(s[|s| - 1]) then Recortar(s[..|s| - 1])
    else s
  }

  /** Trimming leaves nothing exactly when every character of `s` is trimmed. */
  lemma {:induction false} RecortarVacio(s: string)
    ensures Recortar(s) == [] <==> forall j :: 0 <= j < |s| ==> EsEspacio(s[j])
    decreases |s|
  {
    if s == [] {
    } else if EsEspacio(s[0]) {
      RecortarVacio(s[1..]);
      assert forall j :: 0 < j < |s| ==> s[j] == s[1..][j - 1];
    } else if EsEspacio(s[|s| - 1]) {
      RecortarVacio(s[..|s| - 1]);
      assert forall j :: 0 <= j < |s| - 1 ==> s[j] == s[..|s| - 1][j];
    }
  }

  /**
   * `r` is the slice `s[a..b]` and `s` holds nothing but white space and line
   * terminators before `a` and after `b`.
   */
  predicate Tramo(s: string, r: string, a: int, b: int)
  {
    && 0 <= a <= b <= |s| && r == s[a..b]
    && (forall j :: 0 <= j < a ==> EsEspacio(s[j]))
    && (forall j :: b <= j < |s| ==> EsEspacio(s[j]))
  }

  /** Trimming removes white space and line terminators from the two ends only. */
  lemma {:induction false} RecortarTramo(s: string)
    ensures exists a, b :: Tramo(s, Recortar(s), a, b)
    decreases |s|
  {
    if s == [] {
      assert Tramo(s, Recortar(s), 0, 0);
    } else if EsEspacio(s[0]) {
      RecortarTramo(s[1..]);
      var a, b :| Tramo(s[1..], Recortar(s[1..]), a, b);
      TramoInicio(s, a, b);
    } else if EsEspacio(s[|s| - 1]) {
      RecortarTramo(s[..|s| - 1]);
      var a, b :| Tramo(s[..|s| - 1], Recortar(s[..|s| - 1]), a, b);
      TramoFinal(s, a, b);
    } else {
      assert Tramo(s, Recortar(s), 0, |s|);
    }
  }

  /** One step of trimming: a white-space end character is dropped, the first one before the last. */
  lemma RecortarPaso(s: string)
    requires s != []
    ensures EsEspacio(s[0]) ==> Recortar(s) == Recortar(s[1..])
    ensures !EsEspacio(s[0]) && EsEspacio(s[|s| - 1]) ==> Recortar(s) == Recortar(s[..|s| - 1])
  {
  }

  /** Dropping a leading white-space character shifts the slice by one. */
  lemma TramoInicio(s: string, a: int, b: int)
    requires s != [] && EsEspacio(s[0]) && Tramo(s[1..], Recortar(s[1..]), a, b)
    ensures Tramo(s, Recortar(s), a + 1, b + 1)
  {
    var t := s[1..];
    RecortarPaso(s);
    assert t[a..b] == s[a + 1..b + 1];
    EnBlancoDesplazado(s, t, a, b);
  }

  /** White space before `a` and from `b` in `s[1..]` is white space before `a + 1` and from `b + 1` in `s`. */
  lemma EnBlancoDesplazado(s: string, t: string, a: int, b: int)
    requires s != [] && t == s[1..] && EsEspacio(s[0]) && 0 <= a <= b <= |t|
    requires forall j :: 0 <= j < a ==> EsEspacio(t[j])
    requires forall j :: b <= j < |t| ==> EsEspacio(t[j])
    ensures forall j :: 0 <= j < a + 1 ==> EsEspacio(s[j])
    ensures forall j :: b + 1 <= j < |s| ==> EsEspacio(s[j])
  {
    forall j | 0 < j < |s|
      ensures s[j] == t[j - 1]
    {
    }
  }

  /** Dropping a trailing white-space character after a kept first one keeps the slice. */
  lemma TramoFinal(s: string, a: int, b: int)
    requires s != [] && !EsEspacio(s[0]) && EsEspacio(s[|s| - 1])
    requires Tramo(s[..|s| - 1], Recortar(s[..|s| - 1]), a, b)
    ensures Tramo(s, Recortar(s), a, b)
  {
    var t := s[..|s| - 1];
    RecortarPaso(s);
    assert t[a..b] == s[a..b];
    assert t[0] == s[0];
    assert a == 0;
    ColaEnBlanco(s, t, b);
  }

  /** White space from `b` up to the last character, and a white-space last character, make a white-space tail. */
  lemma ColaEnBlanco(s: string, t: string, b: int)
    requires s != [] && t == s[..|s| - 1] && EsEspacio(s[|s| - 1]) && 0 <= b
    requires forall j :: b <= j < |t| ==> EsEspacio(t[j])
    ensures forall j :: b <= j < |s| ==> EsEspacio(s[j])
  {
    forall j | b <= j < |s|
      ensures EsEspacio(s[j])
    {
      if j < |t| {
        assert s[j] == t[j];
      }
    }
  }

  /** `!x.trim()`: the text box holds nothing but white space. */
  predicate EnBlanco(s: string): (b: bool)
    ensures b <==> forall j :: 0 <= j < |s| ==> EsEspacio(s[j])
  {
    RecortarVacio(s);
    Recortar(s) == []
  }

  /** What both interest pages store with `setResultado`. */
  datatype Evaluacion<M> = Evaluacion(correcto: bool, valorReal: Numero, mensaje: M)

  /**
   * The answer check both interest pages apply:
   * `Math.abs(respuesta - valorReal) <= Math.abs(valorReal * 0.01)`.
   * Against an infinity the difference and the tolerance are both infinite,
   * so the comparison holds; against NaN every comparison is false.
   */
  predicate Acepta(respuesta: real, valorReal: Numero): (ok: bool)
    ensures valorReal.Finito? ==>
      (ok <==> valorReal.valor - Abs(valorReal.valor) / 100.0 <= respuesta <= valorReal.valor + Abs(valorReal.valor) / 100.0)
    ensures valorReal == Infinito ==> ok
    ensures valorReal == NaN ==> !ok
  {
    assert valorReal.Finito? ==> Abs(valorReal.valor * 0.01) == Abs(valorReal.valor) / 100.0;
    match valorReal
    case Finito(v) => Abs(respuesta - v) <= Abs(v * 0.01)
    case Infinito => true
    case NaN => false
  }

  /**
   * Acceptance against a finite value is the closed interval of radius 1 %
   * of the value around it: the exact value is always accepted and, when the
   * value is 0, only 0 is.
   */
  lemma AceptaIntervalo(respuesta: real, v: real)
    ensures Acepta(respuesta, Finito(v)) <==> v - Abs(v) / 100.0 <= respuesta <= v + Abs(v) / 100.0
    ensures Acepta(v, Finito(v))
    ensures v == 0.0 ==> (Acepta(respuesta, Finito(v)) <==> respuesta == 0.0)
  {
    assert Abs(v * 0.01) == Abs(v) / 100.0;
  }
}
