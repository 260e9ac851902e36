/** `ReferenciaService`: registers, updates and soft-deletes catalogue items, and answers the
    queries of the REST layer, over the table of `Referencias`. */
module Servicio {
  import opened Wrappers
  import opened Texto
  import Validador
  import opened Referencias

  /** One constructor per `IllegalArgumentException` the service throws; `Validacion` carries the
      one thrown by `ValidadorDatos.validarReferencia`. */
  datatype Error =
    | CodigoFormatoInvalido
    | Validacion(causa: Validador.Error)
    | CodigoYaRegistrado
    | NombreYaRegistrado
    | ReferenciaNoEncontrada
    | CodigoEnOtraReferencia
    | NombreEnOtraReferencia
    | ReferenciaNoExiste
    | ReferenciaYaEliminada
  {
    /** The exception's message. */
    function Mensaje(): string {
      match this
      case CodigoFormatoInvalido =>
        "El código debe iniciar con 'RF' seguido únicamente de números. Ejemplos válidos: RF1, RF05, RF100."
      case Validacion(causa) => causa.Mensaje()
      case CodigoYaRegistrado => "El código ya está registrado."
      case NombreYaRegistrado => "El nombre ya está registrado."
      case ReferenciaNoEncontrada => "Referencia no encontrada."
      case CodigoEnOtraReferencia => "El código ya existe en otra referencia."
      case NombreEnOtraReferencia => "El nombre ya existe en otra referencia."
      case ReferenciaNoExiste => "La referencia no existe."
      case ReferenciaYaEliminada => "La referencia ya está eliminada."
    }
  }

  // ---------------------------------------------------------------------------------------------
  // Code format and normalisation
  // ---------------------------------------------------------------------------------------------

  /** `codigo.matches("^RF\\d+$")`. */
  predicate CodigoRF(c: string) {
    |c| >= 3 && c[0] == 'R' && c[1] == 'F' && SoloDigitos(c[2..])
  }

  /** `validarCodigoRF`. */
  function ValidarCodigoRF(codigo: Option<string>): (o: Outcome<Error>)
    ensures o.Pass? <==> codigo.Some? && CodigoRF(codigo.value)
    ensures o.Fail? ==> o.error == CodigoFormatoInvalido
  {
    if codigo.None? || !CodigoRF(codigo.value) then Fail(CodigoFormatoInvalido) else Pass
  }

  /** The pattern is anchored at both ends: a string `"RF" + d` passes exactly when `d` is one or
      more digits. */
  lemma CodigoRFSiPrefijoYDigitos(d: string)
    ensures CodigoRF("RF" + d) <==> |d| >= 1 && forall k :: 0 <= k < |d| ==> EsDigito(d[k])
  {
    assert ("RF" + d)[2..] == d;
  }

  /** The examples of the source's error message pass; a bare prefix, a trailing letter and lower
      case do not, and lower case is repaired by normalisation. */
  lemma EjemplosDeCodigo()
    ensures CodigoRF("RF1") && CodigoRF("RF05") && CodigoRF("RF100")
    ensures !CodigoRF("RF") && !CodigoRF("RF1A") && !CodigoRF("rf05")
    ensures NormalizarCodigo(" rf05 ") == "RF05" && CodigoRF(NormalizarCodigo(" rf05 "))
  {
    CodigoRFSiPrefijoYDigitos("1");
    CodigoRFSiPrefijoYDigitos("05");
    CodigoRFSiPrefijoYDigitos("100");
    CodigoRFSiPrefijoYDigitos("1A");
    assert "RF1A" == "RF" + "1A";
    assert !EsDigito("1A"[1]);
    var p := RecortarInicio(" rf05 ");
    assert p == "rf05 " by {
      assert " rf05 "[1..] == "rf05 ";
    }
    assert RecortarFin(p) == "rf05" by {
      assert p[..|p| - 1] == "rf05";
    }
    assert Mayusculas("rf05") == "RF05";
    CodigoRFSiPrefijoYDigitos("05");
  }

  /** `codigo.trim().toUpperCase()`. */
  function NormalizarCodigo(c: string): string {
    Mayusculas(Recortar(c))
  }

  /** `nombre.trim()`. */
  function NormalizarNombre(n: string): string {
    Recortar(n)
  }

  /** A code of the accepted form is already normal, so it is never blank either. */
  lemma CodigoRFNormalizado(c: string)
    requires CodigoRF(c)
    ensures Recortar(c) == c && Mayusculas(c) == c
    ensures !EnBlanco(c)
  {
    assert forall k :: 0 <= k < |c| ==> !EsEspacio(c[k]) && Mayuscula(c[k]) == c[k] by {
      forall k | 0 <= k < |c| ensures !EsEspacio(c[k]) && Mayuscula(c[k]) == c[k] {
        if k >= 2 { assert c[k] == c[2..][k - 2]; }
      }
    }
    assert RecortarInicio(c) == c;
    assert RecortarFin(c) == c;
    EnBlancoSiSoloEspacios(c);
  }

  /** Normalising twice is normalising once: a code or name as stored comes back unchanged. */
  lemma NormalizacionIdempotente(c: string, n: string)
    ensures NormalizarCodigo(NormalizarCodigo(c)) == NormalizarCodigo(c)
    ensures NormalizarNombre(NormalizarNombre(n)) == NormalizarNombre(n)
  {
    RecortarMayusculas(Recortar(c));
    RecortarIdempotente(c);
    MayusculasIdempotente(Recortar(c));
    RecortarIdempotente(n);
  }

  /** Once the code has passed `validarCodigoRF`, the only way `validarReferencia` can fail on the
      normalised data is on an empty name. */
  lemma ValidarReferenciaConCodigo(c: string, n: string, activo: bool)
    requires CodigoRF(c) && Recortar(n) == n
    ensures Validador.ValidarReferencia(Some(Validador.DatosReferencia(Some(c), Some(n), activo))) ==
      if n == [] then Fail(Validador.NombreReferenciaVacio) else Pass
  {
    CodigoRFNormalizado(c);
    assert Validador.Presente(Some(n)) <==> n != [];
  }

  /** The steps `registrar` and `actualizar` both take on the submitted data: trim and upper-case
      the code, trim the name, then `validarCodigoRF` and `validarReferencia`. The outcome is the
      first of the two checks that fails, or the row those data make under `id`, which is then a
      row the table can hold. */
  function PrepararDatos(id: int, codigo: string, nombre: string, activo: bool): (r: Result<Referencia, Error>)
    ensures r == if !CodigoRF(NormalizarCodigo(codigo)) then Failure(CodigoFormatoInvalido)
                 else if NormalizarNombre(nombre) == [] then Failure(Validacion(Validador.NombreReferenciaVacio))
                 else Success(Referencia(id, NormalizarCodigo(codigo), NormalizarNombre(nombre), activo))
    ensures r.Success? ==> Almacenable(r.value)
  {
    var c := NormalizarCodigo(codigo);
    var n := NormalizarNombre(nombre);
    match ValidarCodigoRF(Some(c))
    case Fail(e) => Failure(e)
    case Pass =>
      RecortarIdempotente(nombre);
      ValidarReferenciaConCodigo(c, n, activo);
      match Validador.ValidarReferencia(Some(Validador.DatosReferencia(Some(c), Some(n), activo)))
      case Fail(e) => Failure(Validacion(e))
      case Pass => Success(Referencia(id, c, n, activo))
  }

  /** What every stored row looks like: an accepted code, and a trimmed name that is not empty. */
  predicate Almacenable(r: Referencia) {
    CodigoRF(r.codigo) && Recortar(r.nombre) == r.nombre && r.nombre != []
  }

  /** The state the service keeps: the table's constraints, ids below the next one to be generated,
      and rows as `Almacenable` describes. */
  ghost predicate TablaValida(t: seq<Referencia>, siguiente: int) {
    Restricciones(t) && 1 <= siguiente
    && forall i :: 0 <= i < |t| ==> 1 <= t[i].id < siguiente && Almacenable(t[i])
  }

  /** Appending a storable row under the next id, with a code and a name nobody holds, keeps the
      state valid once the counter moves on. */
  lemma AltaPreservaValidez(t: seq<Referencia>, siguiente: int, r: Referencia)
    requires TablaValida(t, siguiente)
    requires r.id == siguiente && Almacenable(r)
    requires FindByCodigo(t, r.codigo).None? && FindByNombre(t, r.nombre).None?
    ensures TablaValida(t + [r], siguiente + 1)
  {
    InsertarPreservaRestricciones(t, r);
    var u := t + [r];
    forall i | 0 <= i < |u| ensures 1 <= u[i].id < siguiente + 1 && Almacenable(u[i]) {
      if i < |t| { assert u[i] == t[i]; }
    }
  }

  /** Overwriting a row in place with a storable row of the same id, whose code and name are free or
      already that row's own, keeps the state valid. */
  lemma ReemplazoPreservaValidez(t: seq<Referencia>, siguiente: int, k: int, r: Referencia)
    requires TablaValida(t, siguiente)
    requires 0 <= k < |t| && r.id == t[k].id && Almacenable(r)
    requires !OcupadoPorOtra(FindByCodigo(t, r.codigo), r.id)
    requires !OcupadoPorOtra(FindByNombre(t, r.nombre), r.id)
    ensures TablaValida(t[k := r], siguiente)
  {
    ReemplazarPreservaRestricciones(t, k, r);
    var u := t[k := r];
    forall i | 0 <= i < |u| ensures 1 <= u[i].id < siguiente && Almacenable(u[i]) {
      if i != k { assert u[i] == t[i]; }
    }
  }

  /** A stored row's own code and name come back unchanged from normalisation, pass the checks, and
      are found on that row only. */
  lemma DatosPropiosAceptables(t: seq<Referencia>, siguiente: int, k: int)
    requires TablaValida(t, siguiente) && 0 <= k < |t|
    ensures NormalizarCodigo(t[k].codigo) == t[k].codigo && CodigoRF(t[k].codigo)
    ensures NormalizarNombre(t[k].nombre) == t[k].nombre && t[k].nombre != []
    ensures FindByCodigo(t, t[k].codigo) == Some(t[k]) && FindByNombre(t, t[k].nombre) == Some(t[k])
  {
    CodigoRFNormalizado(t[k].codigo);
    BusquedasUnicas(t, k);
  }

  /** The row found holds the key and belongs to an item other than `id`. */
  predicate OcupadoPorOtra(encontrada: Option<Referencia>, id: int) {
    encontrada.Some? && encontrada.value.id != id
  }

  /** The answer of `actualizar` for item `id` on table `t`: the item must exist, the new data
      must pass the checks, and neither the new code nor the new name may belong to another item;
      then the item takes the normalised data under its own id. */
  function ResultadoActualizar(t: seq<Referencia>, id: int, codigo: string, nombre: string, activo: bool): Result<Referencia, Error> {
    if IndiceDeId(t, id) == |t| then Failure(ReferenciaNoEncontrada)
    else match PrepararDatos(id, codigo, nombre, activo)
      case Failure(e) => Failure(e)
      case Success(nueva) =>
        if OcupadoPorOtra(FindByCodigo(t, nueva.codigo), id) then Failure(CodigoEnOtraReferencia)
        else if OcupadoPorOtra(FindByNombre(t, nueva.nombre), id) then Failure(NombreEnOtraReferencia)
        else Success(nueva)
  }

  /** The outcome of `actualizar` spelled out on the submitted data, in the source's order. */
  lemma ResultadoActualizarSegunReglas(t: seq<Referencia>, id: int, codigo: string, nombre: string, activo: bool)
    ensures var c, n, k := NormalizarCodigo(codigo), NormalizarNombre(nombre), IndiceDeId(t, id);
      ResultadoActualizar(t, id, codigo, nombre, activo) ==
        if k == |t| then Failure(ReferenciaNoEncontrada)
        else if !CodigoRF(c) then Failure(CodigoFormatoInvalido)
        else if n == [] then Failure(Validacion(Validador.NombreReferenciaVacio))
        else if OcupadoPorOtra(FindByCodigo(t, c), id) then Failure(CodigoEnOtraReferencia)
        else if OcupadoPorOtra(FindByNombre(t, n), id) then Failure(NombreEnOtraReferencia)
        else Success(Referencia(id, c, n, activo))
  {
  }

  /** A successful update rewrites the item found under `id`, keeps its id, and leaves a table the
      service may hold. */
  lemma ActualizacionPreservaValidez(t: seq<Referencia>, siguiente: int, id: int, codigo: string, nombre: string, activo: bool)
    requires TablaValida(t, siguiente)
    ensures var r := ResultadoActualizar(t, id, codigo, nombre, activo);
      r.Success? ==> IndiceDeId(t, id) < |t| && r.value.id == id
                     && TablaValida(t[IndiceDeId(t, id) := r.value], siguiente)
  {
    var r := ResultadoActualizar(t, id, codigo, nombre, activo);
    if r.Success? {
      ReemplazoPreservaValidez(t, siguiente, IndiceDeId(t, id), r.value);
    }
  }

  /** Resubmitting a stored item's own code and name is accepted, whatever the new state: the
      item's code and name only clash with the item itself. */
  lemma ReenvioDePropiosDatos(t: seq<Referencia>, siguiente: int, k: int, activo: bool)
    requires TablaValida(t, siguiente) && 0 <= k < |t|
    ensures ResultadoActualizar(t, t[k].id, t[k].codigo, t[k].nombre, activo) == Success(t[k].(activo := activo))
  {
    DatosPropiosAceptables(t, siguiente, k);
  }

  // ---------------------------------------------------------------------------------------------
  // The service
  // ---------------------------------------------------------------------------------------------

  class ReferenciaService {
    /** The `referencias` table, ordered by id. */
    var tabla: seq<Referencia>
    /** The next value of the `IDENTITY` column. */
    var siguienteId: int

    ghost predicate Valid()
      reads this
    {
      TablaValida(tabla, siguienteId)
    }

    constructor ()
      ensures Valid() && tabla == [] && siguienteId == 1
    {
      tabla := [];
      siguienteId := 1;
    }

    /** `obtenerActivas`. */
    function ObtenerActivas(): (r: seq<Referencia>)
      reads this
      ensures forall x :: x in r <==> x in tabla && x.activo
    {
      FindByActivo(tabla, true)
    }

    /** `obtenerInactivas`. */
    function ObtenerInactivas(): (r: seq<Referencia>)
      reads this
      ensures forall x :: x in r <==> x in tabla && !x.activo
    {
      FindByActivo(tabla, false)
    }

    /** `obtenerTodas`: exactly the active rows together with the inactive ones. */
    function ObtenerTodas(): (r: seq<Referencia>)
      reads this
      ensures multiset(r) == multiset(tabla)
      ensures multiset(r) == multiset(ObtenerActivas()) + multiset(ObtenerInactivas())
    {
      ActivasEInactivasParticionan(tabla);
      tabla
    }

    /** `obtenerPorEstado`: the same lists as `obtenerActivas` and `obtenerInactivas`. */
    function ObtenerPorEstado(activo: bool): (r: seq<Referencia>)
      reads this
      ensures r == if activo then ObtenerActivas() else ObtenerInactivas()
    {
      FindByActivo(tabla, activo)
    }

    /** `obtenerPorId`. */
    function ObtenerPorId(id: int): (r: Result<Referencia, Error>)
      reads this
      ensures r.Success? <==> exists i :: 0 <= i < |tabla| && tabla[i].id == id
      ensures r.Success? ==> r.value.id == id && r.value in tabla
      ensures r.Failure? ==> r.error == ReferenciaNoEncontrada
    {
      match FindById(tabla, id)
      case Some(x) => Success(x)
      case None => Failure(ReferenciaNoEncontrada)
    }

    /** `obtenerPorCodigo`; the code asked for is not normalised first. */
    function ObtenerPorCodigo(codigo: string): (r: Result<Referencia, Error>)
      reads this
      ensures r.Success? <==> exists i :: 0 <= i < |tabla| && tabla[i].codigo == codigo
      ensures r.Success? ==> r.value.codigo == codigo && r.value in tabla
      ensures r.Failure? ==> r.error == ReferenciaNoEncontrada
    {
      match FindByCodigo(tabla, codigo)
      case Some(x) => Success(x)
      case None => Failure(ReferenciaNoEncontrada)
    }

    /** `registrar`: normalise, check the format, check the fields, refuse a taken code and then a
        taken name, and append the item under a fresh id. */
    method Registrar(codigo: string, nombre: string, activo: bool) returns (r: Result<Referencia, Error>)
      requires Valid()
      modifies this
      ensures Valid()
      ensures var c, n := NormalizarCodigo(codigo), NormalizarNombre(nombre);
        r == if !CodigoRF(c) then Failure(CodigoFormatoInvalido)
             else if n == [] then Failure(Validacion(Validador.NombreReferenciaVacio))
             else if FindByCodigo(old(tabla), c).Some? then Failure(CodigoYaRegistrado)
             else if FindByNombre(old(tabla), n).Some? then Failure(NombreYaRegistrado)
             else Success(Referencia(old(siguienteId), c, n, activo))
      ensures r.Success? ==> tabla == old(tabla) + [r.value] && siguienteId == old(siguienteId) + 1
      ensures r.Success? ==> forall x :: x in old(tabla) ==> x.id < r.value.id
      ensures r.Failure? ==> tabla == old(tabla) && siguienteId == old(siguienteId)
    {
      var datos := PrepararDatos(siguienteId, codigo, nombre, activo);
      if datos.Failure? {
        return Failure(datos.error);
      }
      var nueva := datos.value;
      if FindByCodigo(tabla, nueva.codigo).Some? {
        return Failure(CodigoYaRegistrado);
      }
      if FindByNombre(tabla, nueva.nombre).Some? {
        return Failure(NombreYaRegistrado);
      }
      AltaPreservaValidez(tabla, siguienteId, nueva);
      tabla := tabla + [nueva];
      siguienteId := siguienteId + 1;
      r := Success(nueva);
    }

    /** `actualizar`: find the item, normalise and check the new data, refuse a code or a name held by
        another item, and overwrite code, name and state of the item in place. */
    method Actualizar(id: int, codigo: string, nombre: string, activo: bool) returns (r: Result<Referencia, Error>)
      requires Valid()
      modifies this
      ensures Valid() && siguienteId == old(siguienteId)
      ensures r == ResultadoActualizar(old(tabla), id, codigo, nombre, activo)
      ensures r.Success? ==> tabla == old(tabla)[IndiceDeId(old(tabla), id) := r.value]
      ensures r.Failure? ==> tabla == old(tabla)
    {
      var k := IndiceDeId(tabla, id);
      if k == |tabla| {
        return Failure(ReferenciaNoEncontrada);
      }
      var datos := PrepararDatos(id, codigo, nombre, activo);
      if datos.Failure? {
        return Failure(datos.error);
      }
      var nueva := datos.value;
      var porCodigo := FindByCodigo(tabla, nueva.codigo);
      if porCodigo.Some? && porCodigo.value.id != id {
        return Failure(CodigoEnOtraReferencia);
      }
      var porNombre := FindByNombre(tabla, nueva.nombre);
      if porNombre.Some? && porNombre.value.id != id {
        return Failure(NombreEnOtraReferencia);
      }
      ActualizacionPreservaValidez(tabla, siguienteId, id, codigo, nombre, activo);
      tabla := tabla[k := nueva];
      r := Success(nueva);
    }

    /** `eliminar`: a soft delete. A missing item and an item already inactive are errors; otherwise
        only the item's `activo` flag changes, to false. */
    method Eliminar(id: int) returns (r: Outcome<Error>)
      requires Valid()
      modifies this
      ensures Valid() && siguienteId == old(siguienteId)
      ensures var k := IndiceDeId(old(tabla), id);
        r == if k == |old(tabla)| then Fail(ReferenciaNoExiste)
             else if !old(tabla)[k].activo then Fail(ReferenciaYaEliminada)
             else Pass
      ensures var k := IndiceDeId(old(tabla), id);
        r.Pass? ==> tabla == old(tabla)[k := old(tabla)[k].(activo := false)]
      ensures r.Fail? ==> tabla == old(tabla)
      // no row goes from inactive to active
      ensures |tabla| == |old(tabla)| && forall i :: 0 <= i < |tabla| && tabla[i].activo ==> old(tabla)[i].activo
    {
      var k := IndiceDeId(tabla, id);
      if k == |tabla| {
        return Fail(ReferenciaNoExiste);
      }
      var actual := tabla[k];
      if !actual.activo {
        return Fail(ReferenciaYaEliminada);
      }
      var baja := actual.(activo := false);
      BusquedasUnicas(tabla, k);
      ReemplazoPreservaValidez(tabla, siguienteId, k, baja);
      tabla := tabla[k := baja];
      r := Pass;
    }
  }
}
