/**
 * The `Alumno` schema: the paths a stored student document may have, the
 * schema type of each path, how a submitted value is cast to that type, the
 * `required` rule on `matricula` and the default of `activo`.
 *
 * A document is a map from schema paths to values, which is how the document
 * store holds it: a path that was never set is simply absent.  Paths outside
 * the schema cannot be expressed, as the schema's strict mode drops them.
 */
module AlumnoModel {
  import opened Wrappers
  import Text

  /** The schema paths, in declaration order. */
  datatype Path =
    | Matricula | Nombre | APaterno | MPaterno | Sexo | Telefono
    | CorreoElectronico | PerfilFacebook | Instagram | TipoSangre | Contrasena
    | DCalle | Numero | Colonia | CodigoPostal | DNombreContacto
    | TelefonoContacto | Imagen | Activo

  const SchemaPaths: seq<Path> := [
    Matricula, Nombre, APaterno, MPaterno, Sexo, Telefono,
    CorreoElectronico, PerfilFacebook, Instagram, TipoSangre, Contrasena,
    DCalle, Numero, Colonia, CodigoPostal, DNombreContacto,
    TelefonoContacto, Imagen, Activo]

  lemma EveryPathDeclared(p: Path)
    ensures p in SchemaPaths
  {
  }

  datatype SchemaType = StringType | MixedType | BooleanType

  /** `Numero` and `CodigoPostal` are `Mixed`, `activo` is `Boolean`, the
      rest are `String`. */
  function TypeOf(p: Path): SchemaType {
    match p
    case Numero | CodigoPostal => MixedType
    case Activo => BooleanType
    case _ => StringType
  }

  /** A JSON scalar as it arrives in a request body. */
  datatype Value = Str(s: string) | Num(n: int) | Bool(b: bool)

  type Document = map<Path, Value>

  predicate Admits(t: SchemaType, v: Value) {
    match t
    case StringType => v.Str?
    case BooleanType => v.Bool?
    case MixedType => true
  }

  /** Every path holds a value of its schema type. */
  predicate Conforms(d: Document) {
    forall p :: p in d ==> Admits(TypeOf(p), d[p])
  }

  /** Casting a value to a schema type: a `String` path takes the text of a
      number or boolean, a `Boolean` path accepts `true`, `'true'`, `1`, `'1'`,
      `'yes'` and their `false` counterparts and rejects everything else, and
      a `Mixed` path takes anything unchanged. */
  function Cast(t: SchemaType, v: Value): (r: Option<Value>)
    ensures r.Some? ==> Admits(t, r.value)
    ensures Admits(t, v) ==> r == Some(v)
  {
    match t
    case MixedType => Some(v)
    case StringType =>
      (match v
       case Str(_) => Some(v)
       case Num(n) => Some(Str(Text.IntToString(n)))
       case Bool(b) => Some(Str(if b then "true" else "false")))
    case BooleanType =>
      (match v
       case Bool(_) => Some(v)
       case Str(s) =>
         if s == "true" || s == "1" || s == "yes" then Some(Bool(true))
         else if s == "false" || s == "0" || s == "no" then Some(Bool(false))
         else None
       case Num(n) =>
         if n == 1 then Some(Bool(true)) else if n == 0 then Some(Bool(false)) else None)
  }

  /** The first path, in schema order, whose value cannot be cast. */
  function FirstUncastable(d: Document, paths: seq<Path>): (r: Option<Path>)
    ensures r.Some? ==> r.value in d && Cast(TypeOf(r.value), d[r.value]).None?
    ensures r.None? ==> forall p :: p in paths && p in d ==> Cast(TypeOf(p), d[p]).Some?
  {
    if paths == [] then None
    else if paths[0] in d && Cast(TypeOf(paths[0]), d[paths[0]]).None? then Some(paths[0])
    else FirstUncastable(d, paths[1..])
  }

  /** Casting a whole document, failing with the first path that cannot be
      cast (a cast error). */
  function CastDocument(d: Document): (r: Result<Document, Path>)
    ensures r.Success? ==> r.value.Keys == d.Keys && Conforms(r.value)
    ensures r.Success? ==> forall p :: p in d ==> Cast(TypeOf(p), d[p]) == Some(r.value[p])
    ensures r.Failure? ==> r.error in d && Cast(TypeOf(r.error), d[r.error]).None?
  {
    match FirstUncastable(d, SchemaPaths)
    case Some(p) => Failure(p)
    case None =>
      assert forall p :: p in d ==> p in SchemaPaths by {
        forall p | p in d ensures p in SchemaPaths { EveryPathDeclared(p); }
      }
      Success(map p | p in d :: Cast(TypeOf(p), d[p]).value)
  }

  /** A document that already conforms casts to itself. */
  lemma {:induction false} CastConforming(d: Document)
    requires Conforms(d)
    ensures CastDocument(d) == Success(d)
  {
    assert FirstUncastable(d, SchemaPaths).None?;
    var r := CastDocument(d);
    assert r.value.Keys == d.Keys;
    forall p | p in d ensures r.value[p] == d[p] {
      assert Cast(TypeOf(p), d[p]) == Some(d[p]);
    }
    assert r.value == d;
  }

  /** The `required` validator of a `String` path holds of a non-empty string. */
  predicate HasMatricula(d: Document) {
    Matricula in d && d[Matricula].Str? && |d[Matricula].s| > 0
  }

  /** `activo` is `true` unless the document already sets it. */
  function WithDefaults(d: Document): (r: Document)
    ensures r.Keys == d.Keys + {Activo}
    ensures Activo !in d ==> r[Activo] == Bool(true)
    ensures forall p :: p in d ==> r[p] == d[p]
    ensures Conforms(d) ==> Conforms(r)
  {
    if Activo in d then d else d[Activo := Bool(true)]
  }

  /** What every stored document satisfies: it conforms to the schema and
      holds a `matricula` and an `activo` flag. */
  predicate WellFormed(d: Document) {
    Conforms(d) && Matricula in d && Activo in d
  }

  predicate IsActive(d: Document) {
    Activo in d && d[Activo] == Bool(true)
  }

  /** The string held at a `String` path, if any. */
  function TextAt(d: Document, p: Path): Option<string> {
    if p in d && d[p].Str? then Some(d[p].s) else None
  }

  /** In a conforming document, `Numero` and `CodigoPostal` may hold any
      value, `activo` holds a boolean and every other path holds a string. */
  lemma ConformingShape(d: Document, p: Path)
    requires Conforms(d) && p in d
    ensures p == Activo ==> d[p].Bool?
    ensures p != Activo && p != Numero && p != CodigoPostal ==> d[p].Str?
  {
  }
}
