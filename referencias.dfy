/** The `Referencia` entity, the table's uniqueness constraints and the derived queries of
    `ReferenciaRepository`, over a table kept as a sequence ordered by id. */
module Referencias {
  import opened Wrappers

  /** A catalogue item as stored. */
  datatype Referencia = Referencia(id: int, codigo: string, nombre: string, activo: bool)

  // ---------------------------------------------------------------------------------------------
  // Constraints of the table
  // ---------------------------------------------------------------------------------------------

  /** Generated ids grow with every insert, so they are distinct and the table is ordered by them. */
  ghost predicate IdsCrecientes(t: seq<Referencia>) {
    forall i, j :: 0 <= i < j < |t| ==> t[i].id < t[j].id
  }

  /** `@Column(unique = true)` on `codigo`. */
  ghost predicate CodigosUnicos(t: seq<Referencia>) {
    forall i, j :: 0 <= i < |t| && 0 <= j < |t| && t[i].codigo == t[j].codigo ==> i == j
  }

  /** `@Column(unique = true)` on `nombre`. */
  ghost predicate NombresUnicos(t: seq<Referencia>) {
    forall i, j :: 0 <= i < |t| && 0 <= j < |t| && t[i].nombre == t[j].nombre ==> i == j
  }

  ghost predicate Restricciones(t: seq<Referencia>) {
    IdsCrecientes(t) && CodigosUnicos(t) && NombresUnicos(t)
  }

  // ---------------------------------------------------------------------------------------------
  // Lookups
  // ---------------------------------------------------------------------------------------------

  /** Index of the first row with id `id`, or `|t|` when there is none; the index behind
      `findById`, as the two below are behind `findByCodigo` and `findByNombre`. */
  function IndiceDeId(t: seq<Referencia>, id: int): (k: nat)
    ensures k <= |t|
    ensures k < |t| ==> t[k].id == id
    ensures forall i :: 0 <= i < k ==> t[i].id != id
  {
    if t == [] then 0 else if t[0].id == id then 0 else 1 + IndiceDeId(t[1..], id)
  }

  /** Index of the first row holding `codigo`, or `|t|`. */
  function IndiceDeCodigo(t: seq<Referencia>, codigo: string): (k: nat)
    ensures k <= |t|
    ensures k < |t| ==> t[k].codigo == codigo
    ensures forall i :: 0 <= i < k ==> t[i].codigo != codigo
  {
    if t == [] then 0 else if t[0].codigo == codigo then 0 else 1 + IndiceDeCodigo(t[1..], codigo)
  }

  /** Index of the first row holding `nombre`, or `|t|`. */
  function IndiceDeNombre(t: seq<Referencia>, nombre: string): (k: nat)
    ensures k <= |t|
    ensures k < |t| ==> t[k].nombre == nombre
    ensures forall i :: 0 <= i < k ==> t[i].nombre != nombre
  {
    if t == [] then 0 else if t[0].nombre == nombre then 0 else 1 + IndiceDeNombre(t[1..], nombre)
  }

  /** `findById`. */
  function FindById(t: seq<Referencia>, id: int): (r: Option<Referencia>)
    ensures r.Some? <==> exists i :: 0 <= i < |t| && t[i].id == id
    ensures r.Some? ==> r.value.id == id && r.value in t
  {
    var k := IndiceDeId(t, id);
    if k < |t| then Some(t[k]) else None
  }

  /** `findByCodigo`. */
  function FindByCodigo(t: seq<Referencia>, codigo: string): (r: Option<Referencia>)
    ensures r.Some? <==> exists i :: 0 <= i < |t| && t[i].codigo == codigo
    ensures r.Some? ==> r.value.codigo == codigo && r.value in t
  {
    var k := IndiceDeCodigo(t, codigo);
    if k < |t| then Some(t[k]) else None
  }

  /** `findByNombre`. */
  function FindByNombre(t: seq<Referencia>, nombre: string): (r: Option<Referencia>)
    ensures r.Some? <==> exists i :: 0 <= i < |t| && t[i].nombre == nombre
    ensures r.Some? ==> r.value.nombre == nombre && r.value in t
  {
    var k := IndiceDeNombre(t, nombre);
    if k < |t| then Some(t[k]) else None
  }

  /** Under the constraints each lookup can only find the one row holding its key: whatever row
      holds the key is the row returned. */
  lemma BusquedasUnicas(t: seq<Referencia>, i: int)
    requires Restricciones(t)
    requires 0 <= i < |t|
    ensures FindById(t, t[i].id) == Some(t[i])
    ensures FindByCodigo(t, t[i].codigo) == Some(t[i])
    ensures FindByNombre(t, t[i].nombre) == Some(t[i])
  {
    var a, b, c := IndiceDeId(t, t[i].id), IndiceDeCodigo(t, t[i].codigo), IndiceDeNombre(t, t[i].nombre);
  }

  // ---------------------------------------------------------------------------------------------
  // Filters
  // ---------------------------------------------------------------------------------------------

  /** `findByActivo` (and `findByActivoTrue`, `findByActivoFalse`): the rows in the given state, in
      table order. */
  function FindByActivo(t: seq<Referencia>, activo: bool): (r: seq<Referencia>)
    ensures |r| <= |t|
    ensures forall x :: x in r <==> x in t && x.activo == activo
  {
    if t == [] then []
    else if t[0].activo == activo then [t[0]] + FindByActivo(t[1..], activo)
    else FindByActivo(t[1..], activo)
  }

  /** Active and inactive rows split the table: every row lands in exactly one of the two lists,
      as many times as it occurs in the table. */
  lemma {:induction false} ActivasEInactivasParticionan(t: seq<Referencia>)
    ensures multiset(FindByActivo(t, true)) + multiset(FindByActivo(t, false)) == multiset(t)
  {
    if t != [] {
      ActivasEInactivasParticionan(t[1..]);
      assert t == [t[0]] + t[1..];
    }
  }

  // ---------------------------------------------------------------------------------------------
  // Writes that keep the constraints
  // ---------------------------------------------------------------------------------------------

  /** Appending a row with a larger id, a code and a name nobody holds keeps the constraints. */
  lemma InsertarPreservaRestricciones(t: seq<Referencia>, r: Referencia)
    requires Restricciones(t)
    requires forall i :: 0 <= i < |t| ==> t[i].id < r.id
    requires FindByCodigo(t, r.codigo).None?
    requires FindByNombre(t, r.nombre).None?
    ensures Restricciones(t + [r])
  {
    var u := t + [r];
    assert forall i :: 0 <= i < |t| ==> u[i] == t[i];
  }

  /** Overwriting row `k` in place, keeping its id, with a code and a name that are either free or
      already row `k`'s own, keeps the constraints. */
  lemma ReemplazarPreservaRestricciones(t: seq<Referencia>, k: int, r: Referencia)
    requires Restricciones(t)
    requires 0 <= k < |t| && r.id == t[k].id
    requires FindByCodigo(t, r.codigo).None? || FindByCodigo(t, r.codigo).value.id == r.id
    requires FindByNombre(t, r.nombre).None? || FindByNombre(t, r.nombre).value.id == r.id
    ensures Restricciones(t[k := r])
  {
    forall o | 0 <= o < |t| && o != k
      ensures t[o].codigo != r.codigo && t[o].nombre != r.nombre
    {
      BusquedasUnicas(t, o);
    }
  }
}
