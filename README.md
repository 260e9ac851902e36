# Referencia catalogue backend — a Dafny model

This project models the core of the inventory backend:

- **`ReferenciaService`**, the catalogue of *referencias* (catalogue items). Each item has an id, a
  code, a name and an `activo` flag. `registrar` normalises the incoming code and name, checks them
  and appends the item under a freshly generated id. `actualizar` overwrites an item's code, name
  and flag in place. `eliminar` is a soft delete: it only clears `activo`. The queries filter the
  table by state or look an item up by id or by code.
- **`ValidadorDatos`**, the field checks on users, login credentials and catalogue items. Each
  check is a chain of guards; the first guard that fails throws, and its message is the error.
- **`AuthController.login`**, the login decision. It looks the user up by cédula, compares the
  password, and returns the user with its password cleared.

Modules, one per source component:

| module | file | models |
|---|---|---|
| `Wrappers` | `wrappers.dfy` | `Option` (Java `null`, `Optional`), `Result` and `Outcome` (a value or a thrown exception) |
| `Texto` | `texto.dfy` | `String.trim`, `toUpperCase`, `isEmpty`, the regex classes `\d` and `\w`, and `IndiceDe`, the first-occurrence search the e-mail check is decided with |
| `Validador` | `validador.dfy` | `ValidadorDatos`, plus the ordered reading of a guard chain (`PrimerFallo`) |
| `Referencias` | `referencias.dfy` | the `Referencia` entity, its unique columns and the derived queries of `ReferenciaRepository` |
| `Servicio` | `servicio.dfy` | `ReferenciaService` as a class: the table is a `seq<Referencia>` field, the id generator a counter field |
| `Autenticacion` | `autenticacion.dfy` | `AuthController.login` as a method that reads the users table and writes nothing |

The service's object invariant `Valid()` (`Servicio.TablaValida`) says four things:
- ids grow with every insert and stay below the counter;
- codes are unique, and so are names;
- every stored code has the form `RF` followed by digits, so it is already trimmed and upper case;
- every stored name is trimmed and not empty.

Every method of the class keeps this invariant. Each method also states its whole outcome: the
error returned, in the source's order of checks, or the new table as a function of the old one.

Repository lookups return the first matching row of the table. The lemma
`Referencias.BusquedasUnicas` shows that under the unique constraints, this first row is the only
matching row.

## Model

| member | source | states |
|---|---|---|
| `Texto.SoloDigitos` | backend/backend/src/main/java/com/inventario/backend/utils/ValidadorDatos.java:41-43 | a string is all digits exactly when every position holds `0`-`9` (the `\d` class) |
| `Texto.Recortar` | backend/backend/src/main/java/com/inventario/backend/service/ReferenciaService.java:34-35 | the result of `trim` neither starts nor ends with a character at or below U+0020 and is no longer than the input |
| `Texto.RecortarEsRecorte` | backend/backend/src/main/java/com/inventario/backend/service/ReferenciaService.java:34-35 | `trim` returns a slice of the input, and everything it drops on either side is a space or control character |
| `Texto.EnBlancoSiSoloEspacios` | backend/backend/src/main/java/com/inventario/backend/utils/ValidadorDatos.java:73-79 | `s.trim().isEmpty()` holds exactly when every character of `s` is at or below U+0020 |
| `Texto.RecortarIdempotente` | backend/backend/src/main/java/com/inventario/backend/service/ReferenciaService.java:35 | trimming an already trimmed name changes nothing |
| `Texto.Mayusculas` | backend/backend/src/main/java/com/inventario/backend/service/ReferenciaService.java:34 | `toUpperCase` keeps the length and maps each character on its own |
| `Texto.RecortarMayusculas` | backend/backend/src/main/java/com/inventario/backend/service/ReferenciaService.java:34 | trimming then upper-casing gives the same result as upper-casing then trimming |
| `Texto.MayusculasIgualA` | backend/backend/src/main/java/com/inventario/backend/utils/ValidadorDatos.java:58-59 | under the ASCII case mapping, `x.toUpperCase().equals(T)` for an upper-case word `T` holds exactly when `x` spells `T` letter by letter, in either case |
| `Validador.PrimerFallo` | backend/backend/src/main/java/com/inventario/backend/utils/ValidadorDatos.java:31-62 | a guard chain passes exactly when every check passes; when it fails, the error is that of a failing check all of whose predecessors passed |
| `Validador.ValidarUsuario` | backend/backend/src/main/java/com/inventario/backend/utils/ValidadorDatos.java:31-62 | `validarUsuario` passes exactly when the user is not null and has a non-blank name, a 6-10 digit cédula, a well-formed e-mail, a password of at least 6 characters and an ADMIN or TECNICO role |
| `Validador.ValidarUsuarioSigueElOrden` | backend/backend/src/main/java/com/inventario/backend/utils/ValidadorDatos.java:31-62 | the check order is null, nombre, cédula, correo, contraseña, blank rol, rol whitelist, and the first failing check decides the error |
| `Validador.CorreoCoincideSiForma` | backend/backend/src/main/java/com/inventario/backend/utils/ValidadorDatos.java:45-48 | the evaluated e-mail check accepts exactly the strings made of a `[\w.-]+` run, `@`, a `[\w-]+` run, `.`, and at least two ASCII letters; such a string splits that way in only one way |
| `Validador.CorreoPartidoEnUnico` | backend/backend/src/main/java/com/inventario/backend/utils/ValidadorDatos.java:46 | in any such split, the `@` is the first `@` of the string and the dot is the first dot after it |
| `Validador.RolPermitidoSinDistinguirMayusculas` | backend/backend/src/main/java/com/inventario/backend/utils/ValidadorDatos.java:54-61 | under the ASCII case mapping, a role is accepted exactly when it is ADMIN or TECNICO in any mix of letter case (untrimmed), and an accepted role is never blank |
| `Validador.ValidarCredenciales` | backend/backend/src/main/java/com/inventario/backend/utils/ValidadorDatos.java:14-26 | the checks run in the order null user, blank password, password not matching the stored one, and the first failure decides; the login passes exactly when all three checks pass |
| `Validador.ValidarReferencia` | backend/backend/src/main/java/com/inventario/backend/utils/ValidadorDatos.java:67-82 | the checks run in the order null item, blank code, blank name; the item passes exactly when it is present with a non-blank code and a non-blank name |
| `Validador.ValidarReferenciaIgnoraActivo` | backend/backend/src/main/java/com/inventario/backend/utils/ValidadorDatos.java:81 | the verdict does not depend on `activo` |
| `Referencias.IndiceDeId` | backend/backend/src/main/java/com/inventario/backend/service/ReferenciaService.java:75-77 | the index found is the first row with the id, or the table's length when no row has it |
| `Referencias.IndiceDeCodigo` | backend/backend/src/main/java/com/inventario/backend/repository/ReferenciaRepository.java:10 | the index found is the first row with the code, or the table's length when no row has it |
| `Referencias.IndiceDeNombre` | backend/backend/src/main/java/com/inventario/backend/repository/ReferenciaRepository.java:12 | the index found is the first row with the name, or the table's length when no row has it |
| `Referencias.FindById` | backend/backend/src/main/java/com/inventario/backend/service/ReferenciaService.java:75-77 | finds a row exactly when some row has the id, and what it finds is a row of the table with that id |
| `Referencias.FindByCodigo` | backend/backend/src/main/java/com/inventario/backend/repository/ReferenciaRepository.java:10 | finds a row exactly when some row has the code, and what it finds is a row of the table with that code |
| `Referencias.FindByNombre` | backend/backend/src/main/java/com/inventario/backend/repository/ReferenciaRepository.java:12 | finds a row exactly when some row has the name, and what it finds is a row of the table with that name |
| `Referencias.BusquedasUnicas` | backend/backend/src/main/java/com/inventario/backend/model/Referencia.java:13-21 | under the primary key and the two unique columns, looking up a row's id, code or name returns that very row |
| `Referencias.FindByActivo` | backend/backend/src/main/java/com/inventario/backend/repository/ReferenciaRepository.java:15-21 | the result holds exactly the rows of the table in the requested state, and is no longer than the table |
| `Referencias.ActivasEInactivasParticionan` | backend/backend/src/main/java/com/inventario/backend/repository/ReferenciaRepository.java:15-18 | the active rows and the inactive rows, counted with multiplicity, make up the whole table |
| `Referencias.InsertarPreservaRestricciones` | backend/backend/src/main/java/com/inventario/backend/model/Referencia.java:13-21 | appending a row with a larger id, and with a code and a name no row holds, keeps ids increasing and codes and names unique |
| `Referencias.ReemplazarPreservaRestricciones` | backend/backend/src/main/java/com/inventario/backend/model/Referencia.java:13-21 | overwriting a row in place, keeping its id, with a code and a name that are free or already its own, keeps ids increasing and codes and names unique |
| `Servicio.ValidarCodigoRF` | backend/backend/src/main/java/com/inventario/backend/service/ReferenciaService.java:21-27 | `validarCodigoRF` passes exactly on a non-null code of the `^RF\d+$` form, and otherwise fails with the format error |
| `Servicio.CodigoRFSiPrefijoYDigitos` | backend/backend/src/main/java/com/inventario/backend/service/ReferenciaService.java:22 | the pattern is anchored at both ends: `"RF" + d` matches exactly when `d` is one or more digits |
| `Servicio.EjemplosDeCodigo` | backend/backend/src/main/java/com/inventario/backend/service/ReferenciaService.java:22-24 | RF1, RF05 and RF100 match; RF, RF1A and rf05 do not; " rf05 " normalises to RF05, which matches |
| `Servicio.CodigoRFNormalizado` | backend/backend/src/main/java/com/inventario/backend/service/ReferenciaService.java:34-38 | a code that matches is its own trim and its own upper case, so the blank-code check that `validarReferencia` runs next never fires |
| `Servicio.NormalizacionIdempotente` | backend/backend/src/main/java/com/inventario/backend/service/ReferenciaService.java:34-35 | normalising a code or a name a second time changes nothing |
| `Servicio.ValidarReferenciaConCodigo` | backend/backend/src/main/java/com/inventario/backend/service/ReferenciaService.java:37-38 | once the code has matched, `validarReferencia` on the normalised data fails only on an empty name, and fails with the blank-name error |
| `Servicio.PrepararDatos` | backend/backend/src/main/java/com/inventario/backend/service/ReferenciaService.java:34-38 | trimming and upper-casing the code, trimming the name, then `validarCodigoRF` and `validarReferencia`, fails with the format error on a code not of the `RF` form, then with the blank-name error on an empty name, and otherwise yields the normalised row, a row the table can hold |
| `Servicio.AltaPreservaValidez` | backend/backend/src/main/java/com/inventario/backend/service/ReferenciaService.java:40-48 | appending a well-formed row under the next id, with a code and a name no row holds, keeps the service state valid once the counter moves on |
| `Servicio.ReemplazoPreservaValidez` | backend/backend/src/main/java/com/inventario/backend/service/ReferenciaService.java:94-112 | overwriting a row in place with a well-formed row of the same id, whose code and name are free or its own, keeps the service state valid |
| `Servicio.ResultadoActualizarSegunReglas` | backend/backend/src/main/java/com/inventario/backend/service/ReferenciaService.java:83-106 | `ResultadoActualizar`, the answer of `actualizar` that the `Actualizar` contract is stated through, is, in the source's order: "Referencia no encontrada." for a missing id, then the format error, then the blank-name error, then a code held by another id, then a name held by another id, else the normalised data under the same id |
| `Servicio.ActualizacionPreservaValidez` | backend/backend/src/main/java/com/inventario/backend/service/ReferenciaService.java:108-112 | a successful update targets a row that exists, keeps its id, and leaves a table the service may hold |
| `Servicio.ReenvioDePropiosDatos` | backend/backend/src/main/java/com/inventario/backend/service/ReferenciaService.java:94-106 | resubmitting a stored item's own code and name is accepted whatever the new flag, and rewrites only the flag |
| `Servicio.DatosPropiosAceptables` | backend/backend/src/main/java/com/inventario/backend/service/ReferenciaService.java:94-106 | a stored row's own code and name are unchanged by normalisation, pass the checks, and are found only on that row |
| `Servicio.ReferenciaService.constructor` | backend/backend/src/main/java/com/inventario/backend/service/ReferenciaService.java:13-16 | the service starts valid, with an empty table and the id generator at 1 |
| `Servicio.ReferenciaService.ObtenerActivas` | backend/backend/src/main/java/com/inventario/backend/service/ReferenciaService.java:54-56 | the list holds exactly the active rows of the table |
| `Servicio.ReferenciaService.ObtenerInactivas` | backend/backend/src/main/java/com/inventario/backend/service/ReferenciaService.java:61-63 | the list holds exactly the inactive rows of the table |
| `Servicio.ReferenciaService.ObtenerTodas` | backend/backend/src/main/java/com/inventario/backend/service/ReferenciaService.java:68-70 | the result is the whole table, and, counted with multiplicity, it is the active list together with the inactive list |
| `Servicio.ReferenciaService.ObtenerPorEstado` | backend/backend/src/main/java/com/inventario/backend/service/ReferenciaService.java:142-144 | `obtenerPorEstado(true)` is `obtenerActivas` and `obtenerPorEstado(false)` is `obtenerInactivas` |
| `Servicio.ReferenciaService.ObtenerPorId` | backend/backend/src/main/java/com/inventario/backend/service/ReferenciaService.java:75-78 | succeeds exactly when some row has the id and returns a row with that id; otherwise fails with "Referencia no encontrada." |
| `Servicio.ReferenciaService.ObtenerPorCodigo` | backend/backend/src/main/java/com/inventario/backend/service/ReferenciaService.java:134-137 | succeeds exactly when some row has the code as given (not normalised) and returns that row; otherwise fails with "Referencia no encontrada." |
| `Servicio.ReferenciaService.Registrar` | backend/backend/src/main/java/com/inventario/backend/service/ReferenciaService.java:32-49 | the outcome, in the source's order: format error, then blank name, then code taken, then name taken, else success with the normalised item under the next id; on success the table grows by exactly that item, whose id is larger than every old id; on failure nothing changes; the invariant is kept |
| `Servicio.ReferenciaService.Actualizar` | backend/backend/src/main/java/com/inventario/backend/service/ReferenciaService.java:83-113 | the answer is the one `ResultadoActualizarSegunReglas` spells out; on success only the target row changes, to that answer; on failure nothing changes; the id counter never moves; the invariant is kept |
| `Servicio.ReferenciaService.Eliminar` | backend/backend/src/main/java/com/inventario/backend/service/ReferenciaService.java:118-129 | a missing id gives "La referencia no existe." and an inactive item gives "La referencia ya está eliminada."; otherwise only the item's `activo` becomes false; no row ever goes from inactive to active; the invariant is kept |
| `Autenticacion.Login` | backend/backend/src/main/java/com/inventario/backend/controller/AuthController.java:29-44 | an unknown cédula gives 401 "Cédula no encontrada" whatever the password; a known cédula with a different password gives 401 "Contraseña incorrecta"; otherwise 200 with the stored user, its password cleared and every other field as stored, which is the user with the cédula looked up |

## Left out

- Spring wiring, JPA persistence and the meaning of `save` beyond writing a row into the table. The
  `IDENTITY` column is a counter field that starts at 1 and is not bounded by Java's `long`.
- The HTTP mapping in `ReferenciaController.java` and `GlobalExceptionHandler.java`. These files
  are not part of this model: they only turn exceptions into status codes.
- The frontend (`api.js`, `referenciaService.ts`, the screens under `app/`). It is network and UI
  code.
- The default `activo = true` of the entity (`Referencia.java:24`). A request body without `activo`
  arrives with the flag set to true, so `Registrar` and `Actualizar` take the flag after that
  default: an update that omits it reactivates an inactive item.
- `Usuario.java` is not part of this model. `Validador.Usuario` holds only the fields the core reads.
- `Autenticacion.Login`: the users table is a map from cédula to user, which assumes cédulas are
  unique. With two users under one cédula, `findByCedula` would throw instead of answering.
- BCrypt hashing: `passwordEncoder.matches` is the function parameter `coincide` of
  `ValidarCredenciales`, so nothing is assumed about it.
- Java `null` where the source would throw `NullPointerException`. The service methods take
  non-null code and name strings (`getCodigo().trim()` throws on null). `Login` requires the stored
  password of a known cédula to be non-null, and takes the cédula as a non-null string.
- `Servicio.ReferenciaService.Registrar`: assumes the request body carries no id. With an id, JPA's
  `save` would merge into an existing row; the client never sends one.
- `Texto.Mayusculas`: upper-cases only ASCII `a`-`z`. Java's locale-sensitive `toUpperCase` also maps
  other letters, some of them to ASCII (dotless `ı` to `I`) and some to longer strings (`ß` to `SS`).
  `RolPermitido` and the code normalisation inherit this limit.
- `Validador.ContrasenaValida` counts Unicode scalar values. Java's `length()` counts UTF-16 code
  units, so the two differ on passwords with non-BMP characters.
- Full Java regular expressions. The three patterns (`^RF\d+$`, `\d{6,10}`, the e-mail pattern) are
  explicit character-class predicates under Java's default (ASCII) flags.
- `Autenticacion.Login`: clearing the password is modelled on a copy of the user. This assumes the
  entity change is not flushed to the database, since the controller runs no transaction.
- Concurrency. Two concurrent `registrar` calls could both pass the uniqueness checks before either
  saves; the model runs operations one at a time.
- Query result order: the returned lists are in table (id) order. The source does not fix an order.
