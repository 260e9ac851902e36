/** `ValidadorDatos`: the field checks run on users, credentials and catalogue items. Each check is a
    chain of guards; the first guard that fails throws, and its message is what the caller sees. */
module Validador {
  import opened Wrappers
  import opened Texto

  /** The fields of a user that the checks read; any of them may be `null`. */
  datatype Usuario = Usuario(
    nombre: Option<string>,
    cedula: Option<string>,
    correo: Option<string>,
    contrasena: Option<string>,
    rol: Option<string>)

  /** A catalogue item as it reaches the validator: code and name may be `null`, `activo` is a primitive. */
  datatype DatosReferencia = DatosReferencia(codigo: Option<string>, nombre: Option<string>, activo: bool)

  /** One constructor per `IllegalArgumentException` the validator throws. */
  datatype Error =
    | UsuarioNoExiste | ContrasenaVacia | ContrasenaIncorrecta
    | UsuarioNulo | NombreVacio | CedulaInvalida | CorreoInvalido | ContrasenaCorta | RolObligatorio | RolNoPermitido
    | ReferenciaNula | CodigoReferenciaVacio | NombreReferenciaVacio
  {
    /** The exception's message. */
    function Mensaje(): string {
      match this
      case UsuarioNoExiste => "El usuario no existe."
      case ContrasenaVacia => "La contraseña no puede estar vacía."
      case ContrasenaIncorrecta => "Contraseña incorrecta."
      case UsuarioNulo => "El usuario no puede ser nulo."
      case NombreVacio => "El nombre no puede estar vacío."
      case CedulaInvalida => "La cédula debe contener entre 6 y 10 dígitos numéricos."
      case CorreoInvalido => "El correo electrónico no es válido."
      case ContrasenaCorta => "La contraseña debe tener al menos 6 caracteres."
      case RolObligatorio => "El rol es obligatorio."
      case RolNoPermitido => "El rol debe ser ADMIN o TECNICO."
      case ReferenciaNula => "La referencia no puede ser nula."
      case CodigoReferenciaVacio => "El código de la referencia no puede estar vacío."
      case NombreReferenciaVacio => "El nombre de la referencia no puede estar vacío."
    }
  }

  // ---------------------------------------------------------------------------------------------
  // Guard chains in general
  // ---------------------------------------------------------------------------------------------

  /** The reading of a guard chain: the checks run in the listed order, the first failing one
      decides the error, and a chain with no failing check passes. */
  function PrimerFallo<E>(checks: seq<(bool, E)>): (r: Outcome<E>)
    ensures r.Pass? <==> forall k :: 0 <= k < |checks| ==> checks[k].0
    ensures r.Fail? ==> exists k :: 0 <= k < |checks| && FallaPrimero(checks, k) && r.error == checks[k].1
  {
    if checks == [] then Pass
    else if !checks[0].0 then
      assert FallaPrimero(checks, 0);
      Fail(checks[0].1)
    else
      var r := PrimerFallo(checks[1..]);
      assert r.Fail? ==> exists k :: 0 <= k < |checks| && FallaPrimero(checks, k) && r.error == checks[k].1 by {
        if r.Fail? {
          var k :| 0 <= k < |checks| - 1 && FallaPrimero(checks[1..], k) && r.error == checks[1..][k].1;
          assert FallaPrimero(checks, k + 1);
        }
      }
      r
  }

  /** Check `k` fails and every check before it passes. */
  ghost predicate FallaPrimero<E>(checks: seq<(bool, E)>, k: int)
    requires 0 <= k < |checks|
  {
    !checks[k].0 && forall j :: 0 <= j < k ==> checks[j].0
  }

  // ---------------------------------------------------------------------------------------------
  // Field predicates
  // ---------------------------------------------------------------------------------------------

  /** `s != null && !s.trim().isEmpty()`. */
  predicate Presente(s: Option<string>) {
    s.Some? && !EnBlanco(s.value)
  }

  /** `cedula.matches("\\d{6,10}")`: the whole string is 6 to 10 decimal digits. */
  predicate CedulaValida(c: Option<string>) {
    c.Some? && 6 <= |c.value| <= 10 && SoloDigitos(c.value)
  }

  /** `[\w-.]`: a character allowed before the `@`. */
  predicate EsCaracterLocal(c: char) {
    EsCaracterPalabra(c) || c == '-' || c == '.'
  }

  /** `[\w-]`: a character allowed between the `@` and the dot. */
  predicate EsCaracterDominio(c: char) {
    EsCaracterPalabra(c) || c == '-'
  }

  /** `^[\w-.]+@[\w-]+\.[a-zA-Z]{2,}$` read as a decomposition: the `@` stands at `a`, the dot
      of the domain at `p`, and each of the three runs around them has its own character class. */
  predicate CorreoPartidoEn(s: string, a: int, p: int) {
    0 < a && a + 1 < p && p + 2 < |s| && s[a] == '@' && s[p] == '.'
    && (forall k :: 0 <= k < a ==> EsCaracterLocal(s[k]))
    && (forall k :: a < k < p ==> EsCaracterDominio(s[k]))
    && (forall k :: p < k < |s| ==> EsLetraAscii(s[k]))
  }

  /** The whole string matches the e-mail pattern. */
  ghost predicate FormaDeCorreo(s: string) {
    exists a, p :: CorreoPartidoEn(s, a, p)
  }

  /** The e-mail pattern decided without backtracking: neither class before the dot admits `@`, and
      the domain class admits no dot, so the first `@` and the first dot after it are the only
      candidates. */
  predicate CorreoCoincide(s: string) {
    var a := IndiceDe(s, '@');
    a < |s| && var d := s[a + 1..]; var p := IndiceDe(d, '.');
    p < |d| && CorreoPartidoEn(s, a, a + 1 + p)
  }

  /** The evaluated check accepts exactly the strings of the pattern, and a matching string splits in
      one way only: one `@`, and one dot after it. */
  lemma CorreoCoincideSiForma(s: string)
    ensures CorreoCoincide(s) <==> FormaDeCorreo(s)
    ensures forall a, p, a', p' :: CorreoPartidoEn(s, a, p) && CorreoPartidoEn(s, a', p') ==> a == a' && p == p'
  {
    var a := IndiceDe(s, '@');
    if CorreoCoincide(s) {
      var p := a + 1 + IndiceDe(s[a + 1..], '.');
      assert CorreoPartidoEn(s, a, p);
    }
    forall a0, p0 | CorreoPartidoEn(s, a0, p0) ensures a0 == a && p0 == a + 1 + IndiceDe(s[a + 1..], '.') {
      CorreoPartidoEnUnico(s, a0, p0);
    }
    if FormaDeCorreo(s) {
      var a0, p0 :| CorreoPartidoEn(s, a0, p0);
      assert CorreoCoincide(s);
    }
  }

  /** Any split of a matching string is the one found by the first `@` and the first dot after it. */
  lemma CorreoPartidoEnUnico(s: string, a: int, p: int)
    requires CorreoPartidoEn(s, a, p)
    ensures IndiceDe(s, '@') == a
    ensures IndiceDe(s[a + 1..], '.') == p - a - 1
  {
    var d := s[a + 1..];
    assert d[p - a - 1] == '.';
    assert forall k :: 0 <= k < p - a - 1 ==> d[k] == s[a + 1 + k];
  }

  /** `correo != null && correo.matches(...)`. */
  predicate CorreoValido(c: Option<string>) {
    c.Some? && CorreoCoincide(c.value)
  }

  /** `contrasena != null && contrasena.length() >= 6`. */
  predicate ContrasenaValida(c: Option<string>) {
    c.Some? && |c.value| >= 6
  }

  /** `rol.toUpperCase()` is `ADMIN` or `TECNICO`; the role itself is not trimmed. */
  predicate RolPermitido(r: Option<string>) {
    r.Some? && (Mayusculas(r.value) == "ADMIN" || Mayusculas(r.value) == "TECNICO")
  }

  /** The role whitelist ignores letter case and nothing else: an accepted role is one of the two words
      written in any mix of cases, and so it is never blank. */
  lemma RolPermitidoSinDistinguirMayusculas(r: string)
    ensures RolPermitido(Some(r)) <==>
      (|r| == 5 && forall k :: 0 <= k < 5 ==> r[k] == "ADMIN"[k] || r[k] == "admin"[k]) ||
      (|r| == 7 && forall k :: 0 <= k < 7 ==> r[k] == "TECNICO"[k] || r[k] == "tecnico"[k])
    ensures RolPermitido(Some(r)) ==> Presente(Some(r))
  {
    MayusculasIgualA(r, "ADMIN");
    MayusculasIgualA(r, "TECNICO");
    if RolPermitido(Some(r)) {
      assert !EsEspacio(r[0]) by {
        assert Mayuscula(r[0]) == 'A' || Mayuscula(r[0]) == 'T';
      }
      EnBlancoSiSoloEspacios(r);
    }
  }

  // ---------------------------------------------------------------------------------------------
  // validarUsuario
  // ---------------------------------------------------------------------------------------------

  /** The guards of `validarUsuario`, in the order the source runs them. */
  function ComprobacionesUsuario(u: Option<Usuario>): seq<(bool, Error)> {
    if u.None? then [(false, UsuarioNulo)]
    else
      var v := u.value;
      [ (Presente(v.nombre), NombreVacio),
        (CedulaValida(v.cedula), CedulaInvalida),
        (CorreoValido(v.correo), CorreoInvalido),
        (ContrasenaValida(v.contrasena), ContrasenaCorta),
        (Presente(v.rol), RolObligatorio),
        (RolPermitido(v.rol), RolNoPermitido) ]
  }

  /** Every field of the user is acceptable. */
  predicate UsuarioValido(v: Usuario) {
    Presente(v.nombre) && CedulaValida(v.cedula) && CorreoValido(v.correo)
    && ContrasenaValida(v.contrasena) && RolPermitido(v.rol)
  }

  /** `validarUsuario`. */
  function ValidarUsuario(u: Option<Usuario>): (r: Outcome<Error>)
    ensures r.Pass? <==> u.Some? && UsuarioValido(u.value)
  {
    if u.None? then Fail(UsuarioNulo)
    else
      var v := u.value;
      if !Presente(v.nombre) then Fail(NombreVacio)
      else if !CedulaValida(v.cedula) then Fail(CedulaInvalida)
      else if !CorreoValido(v.correo) then Fail(CorreoInvalido)
      else if !ContrasenaValida(v.contrasena) then Fail(ContrasenaCorta)
      else if !Presente(v.rol) then
        // a blank role is never on the whitelist, so the user is not valid either
        if v.rol.Some? then RolPermitidoSinDistinguirMayusculas(v.rol.value); Fail(RolObligatorio)
        else Fail(RolObligatorio)
      else if !RolPermitido(v.rol) then Fail(RolNoPermitido)
      else Pass
  }

  /** `validarUsuario` runs its guards in the listed order and the first failing one decides. */
  lemma ValidarUsuarioSigueElOrden(u: Option<Usuario>)
    ensures ValidarUsuario(u) == PrimerFallo(ComprobacionesUsuario(u))
  {
    if u.Some? {
      var c := ComprobacionesUsuario(u);
      assert c[5..] == [c[5]];
      assert c[4..] == [c[4]] + c[5..];
      assert c[3..] == [c[3]] + c[4..];
      assert c[2..] == [c[2]] + c[3..];
      assert c[1..] == [c[1]] + c[2..];
      assert PrimerFallo(c[5..]) == (if c[5].0 then Pass else Fail(c[5].1));
      assert PrimerFallo(c[4..]) == (if c[4].0 then PrimerFallo(c[5..]) else Fail(c[4].1));
      assert PrimerFallo(c[3..]) == (if c[3].0 then PrimerFallo(c[4..]) else Fail(c[3].1));
      assert PrimerFallo(c[2..]) == (if c[2].0 then PrimerFallo(c[3..]) else Fail(c[2].1));
      assert PrimerFallo(c[1..]) == (if c[1].0 then PrimerFallo(c[2..]) else Fail(c[1].1));
    }
  }

  // ---------------------------------------------------------------------------------------------
  // validarCredenciales
  // ---------------------------------------------------------------------------------------------

  /** The guards of `validarCredenciales`; `coincide` stands for the password encoder's `matches`
      on the typed password and the stored one. */
  function ComprobacionesCredenciales(u: Option<Usuario>, intento: Option<string>,
                                      coincide: (string, Option<string>) -> bool): seq<(bool, Error)> {
    if u.None? then [(false, UsuarioNoExiste)]
    else
      [ (Presente(intento), ContrasenaVacia),
        (intento.Some? && coincide(intento.value, u.value.contrasena), ContrasenaIncorrecta) ]
  }

  /** `validarCredenciales`. */
  function ValidarCredenciales(u: Option<Usuario>, intento: Option<string>,
                               coincide: (string, Option<string>) -> bool): (r: Outcome<Error>)
    ensures r == PrimerFallo(ComprobacionesCredenciales(u, intento, coincide))
    ensures r.Pass? <==> u.Some? && Presente(intento) && coincide(intento.value, u.value.contrasena)
  {
    if u.None? then Fail(UsuarioNoExiste)
    else if intento.None? || EnBlanco(intento.value) then Fail(ContrasenaVacia)
    else if !coincide(intento.value, u.value.contrasena) then Fail(ContrasenaIncorrecta)
    else Pass
  }

  // ---------------------------------------------------------------------------------------------
  // validarReferencia
  // ---------------------------------------------------------------------------------------------

  /** The guards of `validarReferencia`; `activo` is not among them. */
  function ComprobacionesReferencia(r: Option<DatosReferencia>): seq<(bool, Error)> {
    if r.None? then [(false, ReferenciaNula)]
    else [(Presente(r.value.codigo), CodigoReferenciaVacio), (Presente(r.value.nombre), NombreReferenciaVacio)]
  }

  /** `validarReferencia`. */
  function ValidarReferencia(r: Option<DatosReferencia>): (o: Outcome<Error>)
    ensures o == PrimerFallo(ComprobacionesReferencia(r))
    ensures o.Pass? <==> r.Some? && Presente(r.value.codigo) && Presente(r.value.nombre)
  {
    if r.None? then Fail(ReferenciaNula)
    else if !Presente(r.value.codigo) then Fail(CodigoReferenciaVacio)
    else if !Presente(r.value.nombre) then Fail(NombreReferenciaVacio)
    else Pass
  }

  /** The verdict on an item does not depend on its `activo` flag. */
  lemma ValidarReferenciaIgnoraActivo(d: DatosReferencia, activo: bool)
    ensures ValidarReferencia(Some(d.(activo := activo))) == ValidarReferencia(Some(d))
  {
  }
}
