/** The parts of `java.lang.String` the backend relies on: `trim`, `toUpperCase`, `isEmpty` and the
    character classes `\d` and `\w` of `java.util.regex` under its default flags. */
module Texto {

  /** `String.trim` removes every leading and trailing character whose code is at most U+0020. */
  predicate EsEspacio(c: char) {
    c <= ' '
  }

  /** `\d` without `UNICODE_CHARACTER_CLASS` is `[0-9]`. */
  predicate EsDigito(c: char) {
    '0' <= c <= '9'
  }

  predicate EsLetraAscii(c: char) {
    'a' <= c <= 'z' || 'A' <= c <= 'Z'
  }

  /** `\w` without `UNICODE_CHARACTER_CLASS` is `[a-zA-Z_0-9]`. */
  predicate EsCaracterPalabra(c: char) {
    EsLetraAscii(c) || EsDigito(c) || c == '_'
  }

  /** True when every character of `s` is a decimal digit (an empty `s` qualifies). */
  function SoloDigitos(s: string): (r: bool)
    ensures r <==> forall k :: 0 <= k < |s| ==> EsDigito(s[k])
  {
    if s == [] then true else EsDigito(s[0]) && SoloDigitos(s[1..])
  }

  /** Index of the first `c` in `s`, with `|s|` standing for "not found": the search the e-mail
      check is decided with. */
  function IndiceDe(s: string, c: char): (r: nat)
    ensures r <= |s|
    ensures r < |s| ==> s[r] == c
    ensures forall k :: 0 <= k < r ==> s[k] != c
  {
    if s == [] then 0 else if s[0] == c then 0 else 1 + IndiceDe(s[1..], c)
  }

  /** Drops the leading run of spaces. */
  function RecortarInicio(s: string): (r: string)
    ensures |r| <= |s|
    ensures r == [] || !EsEspacio(r[0])
  {
    if s == [] || !EsEspacio(s[0]) then s else RecortarInicio(s[1..])
  }

  /** What `RecortarInicio` drops is a prefix made of spaces. */
  lemma {:induction false} RecortarInicioEsSufijo(s: string)
    ensures RecortarInicio(s) == s[|s| - |RecortarInicio(s)|..]
    ensures forall k :: 0 <= k < |s| - |RecortarInicio(s)| ==> EsEspacio(s[k])
  {
    if s != [] && EsEspacio(s[0]) {
      RecortarInicioEsSufijo(s[1..]);
    }
  }

  /** Drops the trailing run of spaces. */
  function RecortarFin(s: string): (r: string)
    ensures |r| <= |s|
    ensures r == [] || !EsEspacio(r[|r| - 1])
  {
    if s == [] || !EsEspacio(s[|s| - 1]) then s else RecortarFin(s[..|s| - 1])
  }

  /** What `RecortarFin` drops is a suffix made of spaces. */
  lemma {:induction false} RecortarFinEsPrefijo(s: string)
    ensures RecortarFin(s) == s[..|RecortarFin(s)|]
    ensures forall k :: |RecortarFin(s)| <= k < |s| ==> EsEspacio(s[k])
  {
    if s != [] && EsEspacio(s[|s| - 1]) {
      RecortarFinEsPrefijo(s[..|s| - 1]);
    }
  }

  /** `r` is what is left of `s` once a prefix and a suffix made only of spaces are cut off. */
  ghost predicate EsRecorte(s: string, r: string) {
    exists i, j :: RecorteEntre(s, r, i, j)
  }

  /** `r` is `s[i..j]`, and everything of `s` outside `i..j` is a space. */
  ghost predicate RecorteEntre(s: string, r: string, i: int, j: int) {
    0 <= i <= j <= |s| && r == s[i..j]
    && (forall k :: 0 <= k < i ==> EsEspacio(s[k]))
    && (forall k :: j <= k < |s| ==> EsEspacio(s[k]))
  }

  /** `String.trim`. */
  function Recortar(s: string): (r: string)
    ensures |r| <= |s|
    ensures r == [] || (!EsEspacio(r[0]) && !EsEspacio(r[|r| - 1]))
  {
    RecortarFinEsPrefijo(RecortarInicio(s));
    RecortarFin(RecortarInicio(s))
  }

  /** `trim` cuts off a prefix and a suffix made of spaces and nothing else. */
  lemma RecortarEsRecorte(s: string)
    ensures EsRecorte(s, Recortar(s))
  {
    var p := RecortarInicio(s);
    var r := RecortarFin(p);
    RecortarInicioEsSufijo(s);
    RecortarFinEsPrefijo(p);
    var i := |s| - |p|;
    var j := i + |r|;
    assert RecorteEntre(s, r, i, j) by {
      assert p == s[i..];
      assert r == s[i..j];
      assert forall k :: j <= k < |s| ==> EsEspacio(s[k]) by {
        forall k | j <= k < |s| ensures EsEspacio(s[k]) {
          assert s[k] == p[k - i];
        }
      }
    }
  }

  /** `s.trim().isEmpty()`. */
  predicate EnBlanco(s: string) {
    Recortar(s) == []
  }

  /** A string is blank exactly when all its characters are spaces. */
  lemma EnBlancoSiSoloEspacios(s: string)
    ensures EnBlanco(s) <==> forall k :: 0 <= k < |s| ==> EsEspacio(s[k])
  {
    RecortarInicioEsSufijo(s);
    RecortarFinEsPrefijo(RecortarInicio(s));
    if forall k :: 0 <= k < |s| ==> EsEspacio(s[k]) {
      SoloEspaciosSeRecortan(s);
    }
  }

  lemma {:induction false} SoloEspaciosSeRecortan(s: string)
    requires forall k :: 0 <= k < |s| ==> EsEspacio(s[k])
    ensures RecortarInicio(s) == []
  {
    if s != [] {
      assert EsEspacio(s[0]);
      SoloEspaciosSeRecortan(s[1..]);
    }
  }

  /** Trimming twice is trimming once. */
  lemma RecortarIdempotente(s: string)
    ensures Recortar(Recortar(s)) == Recortar(s)
  {
    var r := Recortar(s);
    assert RecortarInicio(r) == r;
  }

  /** `Character.toUpperCase` on the ASCII range. */
  function Mayuscula(c: char): char {
    if 'a' <= c <= 'z' then (c as int - 'a' as int + 'A' as int) as char else c
  }

  /** `String.toUpperCase`, character by character. */
  function Mayusculas(s: string): (r: string)
    ensures |r| == |s|
    ensures forall k :: 0 <= k < |s| ==> r[k] == Mayuscula(s[k])
  {
    seq(|s|, k requires 0 <= k < |s| => Mayuscula(s[k]))
  }

  /** Upper-casing twice is upper-casing once. */
  lemma MayusculasIdempotente(s: string)
    ensures Mayusculas(Mayusculas(s)) == Mayusculas(s)
  {
  }

  /** Upper-casing leaves spaces where they are, so it commutes with trimming. */
  lemma {:induction false} RecortarMayusculas(s: string)
    ensures Recortar(Mayusculas(s)) == Mayusculas(Recortar(s))
  {
    RecortarInicioMayusculas(s);
    RecortarFinMayusculas(RecortarInicio(s));
  }

  lemma {:induction false} RecortarInicioMayusculas(s: string)
    ensures RecortarInicio(Mayusculas(s)) == Mayusculas(RecortarInicio(s))
  {
    if s != [] && EsEspacio(s[0]) {
      assert Mayusculas(s)[1..] == Mayusculas(s[1..]);
      RecortarInicioMayusculas(s[1..]);
    }
  }

  lemma {:induction false} RecortarFinMayusculas(s: string)
    ensures RecortarFin(Mayusculas(s)) == Mayusculas(RecortarFin(s))
  {
    if s != [] && EsEspacio(s[|s| - 1]) {
      assert Mayusculas(s)[..|s| - 1] == Mayusculas(s[..|s| - 1]);
      RecortarFinMayusculas(s[..|s| - 1]);
    }
  }

  /** `Character.toLowerCase` on the ASCII range. */
  function Minuscula(c: char): char {
    if 'A' <= c <= 'Z' then (c as int - 'A' as int + 'a' as int) as char else c
  }

  /** Comparing `toUpperCase()` with an upper-case word is comparing letter by letter, ignoring case. */
  lemma {:induction false} MayusculasIgualA(x: string, t: string)
    requires forall k :: 0 <= k < |t| ==> 'A' <= t[k] <= 'Z'
    ensures Mayusculas(x) == t <==> |x| == |t| && forall k :: 0 <= k < |x| ==> x[k] == t[k] || x[k] == Minuscula(t[k])
  {
    if |x| == |t| && forall k :: 0 <= k < |x| ==> x[k] == t[k] || x[k] == Minuscula(t[k]) {
      forall k | 0 <= k < |x| ensures Mayusculas(x)[k] == t[k] {
        assert x[k] == t[k] || x[k] == Minuscula(t[k]);
      }
    }
    if Mayusculas(x) == t {
      forall k | 0 <= k < |x| ensures x[k] == t[k] || x[k] == Minuscula(t[k]) {
        assert Mayuscula(x[k]) == t[k];
      }
    }
  }
}
