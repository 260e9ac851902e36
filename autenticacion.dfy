/** `AuthController.login`: the login decision over the users table, looked up by cédula. */
module Autenticacion {
  import opened Wrappers
  import opened Validador

  /** The body of the HTTP response: a `{"mensaje": ...}` map or the user itself. */
  datatype Cuerpo = ConMensaje(mensaje: string) | ConUsuario(usuario: Usuario)

  datatype Respuesta = Respuesta(estado: int, cuerpo: Cuerpo)

  /** The users table keyed by cédula: each user is stored under its own cédula. */
  predicate TablaDeUsuarios(usuarios: map<string, Usuario>) {
    forall c :: c in usuarios ==> usuarios[c].cedula == Some(c)
  }

  /** `login`. `usuarios` is the users table keyed by cédula, so `findByCedula(c)` finds
      `usuarios[c]` when `c` is a key. The user found has its password cleared before it is
      returned; the table itself is not written. */
  method Login(usuarios: map<string, Usuario>, cedula: string, contrasena: Option<string>) returns (resp: Respuesta)
    requires TablaDeUsuarios(usuarios)
    requires cedula in usuarios ==> usuarios[cedula].contrasena.Some?
    ensures cedula !in usuarios ==>
      resp == Respuesta(401, ConMensaje("Cédula no encontrada"))
    ensures cedula in usuarios && usuarios[cedula].contrasena != contrasena ==>
      resp == Respuesta(401, ConMensaje("Contraseña incorrecta"))
    ensures cedula in usuarios && usuarios[cedula].contrasena == contrasena ==>
      resp == Respuesta(200, ConUsuario(usuarios[cedula].(contrasena := None)))
    // the user returned is the one with the cédula looked up
    ensures resp.cuerpo.ConUsuario? ==> resp.cuerpo.usuario.cedula == Some(cedula)
  {
    if cedula !in usuarios {
      return Respuesta(401, ConMensaje("Cédula no encontrada"));
    }
    var usuario := usuarios[cedula];
    if usuario.contrasena != contrasena {
      return Respuesta(401, ConMensaje("Contraseña incorrecta"));
    }
    usuario := usuario.(contrasena := None);
    resp := Respuesta(200, ConUsuario(usuario));
  }
}
