/**
 * The student record handlers: listing, lookup, creation with credential
 * hashing, partial update, soft delete and restore, search, and
 * self-service profile update.
 *
 * The first half of the module specifies each handler as a function of the
 * stored documents and the request; the class `AlumnoStore` at the end holds
 * the documents and carries the handlers out step by step, proved against
 * those functions.  The credential hash is a function the store is built
 * with; all the model knows of it is that it never returns its input.
 */
module AlumnoController {
  import opened Wrappers
  import opened AlumnoModel
  import Text

  /** A document id, assigned by the store from a counter. */
  type Id = nat

  type Store = map<Id, Document>

  /** Why a write was refused. */
  datatype Cause =
    | IllegalCredential         // the hashing library refuses a credential that is not a string
    | CastFailed(path: Path)    // a value does not cast to its path's schema type
    | RequiredMissing(path: Path)
    | DuplicateKey(path: Path)  // the unique index on `matricula`

  /** A failed request, distinguished by the status the handler answers with. */
  datatype Failure = NotFound | BadRequest(cause: Cause) | ServerError(cause: Cause)

  function Status(f: Failure): (code: nat)
    ensures code in {400, 404, 500}
    ensures code == 404 <==> f.NotFound?
  {
    match f
    case NotFound => 404
    case BadRequest(_) => 400
    case ServerError(_) => 500
  }

  /** What the model assumes of the credential hash. */
  ghost predicate HashChangesInput(hash: string -> string) {
    forall raw :: hash(raw) != raw
  }

  /** The request body with its credential taken out
      (`const { Contrasena, ...resto } = req.body`). */
  function Resto(body: Document): (r: Document)
    ensures Contrasena !in r
    ensures forall p :: p != Contrasena ==> (p in r <==> p in body)
    ensures forall p :: p in r ==> r[p] == body[p]
  {
    body - {Contrasena}
  }

  /** JavaScript truthiness of a body value. */
  predicate Truthy(v: Value) {
    match v
    case Str(s) => s != ""
    case Num(n) => n != 0
    case Bool(b) => b
  }

  /** Some stored document other than `except` holds this `matricula`. */
  predicate Taken(docs: Store, m: Value, except: Option<Id>) {
    exists id :: id in docs && Some(id) != except && Matricula in docs[id] && docs[id][Matricula] == m
  }

  // ---- crearAlumno ---------------------------------------------------------

  /** The document `crearAlumno` builds and validates: the body without its
      credential, plus the hash of the credential, cast to the schema, with
      `activo` defaulted and `matricula` required. */
  function NewAlumno(body: Document, hash: string -> string): (r: Result<Document, Cause>)
    ensures r.Success? ==> WellFormed(r.value) && HasMatricula(r.value)
  {
    if Contrasena !in body || !body[Contrasena].Str? then Failure(IllegalCredential)
    else
      var given := Resto(body)[Contrasena := Str(hash(body[Contrasena].s))];
      match CastDocument(given)
      case Failure(p) => Failure(CastFailed(p))
      case Success(d) =>
        var doc := WithDefaults(d);
        if HasMatricula(doc) then Success(doc) else Failure(RequiredMissing(Matricula))
  }

  /** The outcome of `crearAlumno` on a store: the new document, or why it
      was refused (every refusal answers 400). */
  function Create(docs: Store, body: Document, hash: string -> string): (r: Result<Document, Failure>)
    ensures r.Failure? ==> Status(r.error) == 400
  {
    match NewAlumno(body, hash)
    case Failure(c) => Failure(BadRequest(c))
    case Success(doc) =>
      if Taken(docs, doc[Matricula], None) then Failure(BadRequest(DuplicateKey(Matricula)))
      else Success(doc)
  }

  /** The stored credential is the hash of the submitted one, never the
      submitted one itself. */
  lemma CreateStoresHash(docs: Store, body: Document, hash: string -> string)
    requires Create(docs, body, hash).Success?
    ensures Contrasena in body && body[Contrasena].Str?
    ensures var doc := Create(docs, body, hash).value;
      Contrasena in doc && doc[Contrasena] == Str(hash(body[Contrasena].s))
    ensures HashChangesInput(hash) ==> Create(docs, body, hash).value[Contrasena] != body[Contrasena]
  {
    var raw := body[Contrasena].s;
    var given := Resto(body)[Contrasena := Str(hash(raw))];
    assert Cast(TypeOf(Contrasena), given[Contrasena]) == Some(Str(hash(raw)));
  }

  /** Every other supplied field is stored as given, after its schema cast;
      `activo` is `true` unless the body sets it; nothing else is stored. */
  lemma CreateCopiesFields(docs: Store, body: Document, hash: string -> string, p: Path)
    requires Create(docs, body, hash).Success?
    requires p != Contrasena
    ensures var doc := Create(docs, body, hash).value;
      && (p != Activo ==> (p in doc <==> p in body))
      && (p in body ==> Some(doc[p]) == Cast(TypeOf(p), body[p]))
      && (p == Activo && Activo !in body ==> doc[p] == Bool(true))
  {
    var given := Resto(body)[Contrasena := Str(hash(body[Contrasena].s))];
    var cast := CastDocument(given);
    var doc := WithDefaults(cast.value);
    assert Create(docs, body, hash).value == doc;
    if p in body {
      assert given[p] == body[p];
      assert doc[p] == cast.value[p];
    }
    if p != Activo {
      assert p in doc <==> p in given;
    }
  }

  /** A body without a string credential is refused, whatever else it holds. */
  lemma CreateNeedsCredential(docs: Store, body: Document, hash: string -> string)
    requires Contrasena !in body || !body[Contrasena].Str?
    ensures Create(docs, body, hash) == Failure(BadRequest(IllegalCredential))
  {
  }

  /** A body without a `matricula` is refused. */
  lemma CreateNeedsMatricula(docs: Store, body: Document, hash: string -> string)
    requires Matricula !in body
    ensures Create(docs, body, hash).Failure?
  {
    if NewAlumno(body, hash).Success? {
      var given := Resto(body)[Contrasena := Str(hash(body[Contrasena].s))];
      assert Matricula !in given;
    }
  }

  /** A `matricula` that any stored document holds, active or not, cannot be
      used again. */
  lemma CreateRejectsDuplicate(docs: Store, body: Document, hash: string -> string, other: Id)
    requires Matricula in body
    requires other in docs && Matricula in docs[other]
    requires Cast(TypeOf(Matricula), body[Matricula]) == Some(docs[other][Matricula])
    ensures Create(docs, body, hash).Failure?
  {
    var n := NewAlumno(body, hash);
    if n.Success? {
      var given := Resto(body)[Contrasena := Str(hash(body[Contrasena].s))];
      var cast := CastDocument(given);
      assert given[Matricula] == body[Matricula];
      assert Some(cast.value[Matricula]) == Cast(TypeOf(Matricula), body[Matricula]);
      assert n.value[Matricula] == docs[other][Matricula];
      assert Taken(docs, n.value[Matricula], None);
    }
  }

  // ---- actualizarAlumno and actualizarPerfil -------------------------------

  /** `datosActualizados`: the body without its credential, plus the hash of
      the credential when a truthy one is given.  A truthy credential that is
      not a string makes the hashing library throw. */
  function UpdateData(body: Document, hash: string -> string): (r: Result<Document, Cause>)
    ensures r.Success? ==> forall p :: p != Contrasena ==> (p in r.value <==> p in body)
    ensures r.Success? ==> forall p :: p != Contrasena && p in body ==> r.value[p] == body[p]
    ensures r.Success? ==> (Contrasena in r.value <==> Contrasena in body && Truthy(body[Contrasena]))
    ensures r.Success? && Contrasena in r.value ==>
      body[Contrasena].Str? && r.value[Contrasena] == Str(hash(body[Contrasena].s))
    ensures r.Failure? <==> Contrasena in body && Truthy(body[Contrasena]) && !body[Contrasena].Str?
  {
    var resto := Resto(body);
    if Contrasena in body && Truthy(body[Contrasena]) then
      if body[Contrasena].Str? then Success(resto[Contrasena := Str(hash(body[Contrasena].s))])
      else Failure(IllegalCredential)
    else Success(resto)
  }

  /** `findByIdAndUpdate(id, data, { new: true })`: the update is cast to the
      schema, then applied as a shallow merge to the document with that id;
      `None` when no document has it.  The unique index refuses a
      `matricula` that another document holds.  Validators do not run. */
  function ApplyUpdate(docs: Store, id: Id, data: Document): (r: Result<Option<Document>, Cause>)
    ensures r == Success(None) <==> CastDocument(data).Success? && id !in docs
  {
    match CastDocument(data)
    case Failure(p) => Failure(CastFailed(p))
    case Success(patch) =>
      if id !in docs then Success(None)
      else if Matricula in patch && Taken(docs, patch[Matricula], Some(id)) then Failure(DuplicateKey(Matricula))
      else Success(Some(docs[id] + patch))
  }

  /** The outcome of `actualizarAlumno`: the updated document, 404 when the id
      is unknown, 500 when hashing, casting or the unique index fails. */
  function Update(docs: Store, id: Id, body: Document, hash: string -> string): (r: Result<Document, Failure>)
    ensures r.Failure? ==> Status(r.error) in {404, 500}
  {
    match UpdateData(body, hash)
    case Failure(c) => Failure(ServerError(c))
    case Success(data) =>
      match ApplyUpdate(docs, id, data)
      case Failure(c) => Failure(ServerError(c))
      case Success(None) => Failure(NotFound)
      case Success(Some(d)) => Success(d)
  }

  /** The outcome of `actualizarPerfil`: the same merge as `actualizarAlumno`,
      but an unknown id answers with an empty (`null`) body instead of 404. */
  function UpdateProfile(docs: Store, id: Id, body: Document, hash: string -> string): (r: Result<Option<Document>, Failure>)
    ensures r.Failure? ==> Status(r.error) == 500
  {
    match Update(docs, id, body, hash)
    case Failure(NotFound) => Success(None)
    case Failure(f) => Failure(f)
    case Success(d) => Success(Some(d))
  }

  /** A body is accepted by the update when its credential can be hashed and
      every value casts. */
  predicate UpdateBodyAccepted(body: Document, hash: string -> string) {
    UpdateData(body, hash).Success? && CastDocument(UpdateData(body, hash).value).Success?
  }

  /** Only supplied fields change: a path the body does not mention keeps its
      stored value (or stays absent), a supplied path other than the
      credential takes the cast of the supplied value. */
  lemma {:induction false} UpdateChangesOnlySupplied(docs: Store, id: Id, body: Document, hash: string -> string, p: Path)
    requires Update(docs, id, body, hash).Success?
    ensures id in docs
    ensures var d := Update(docs, id, body, hash).value;
      && (p !in body ==> (p in d <==> p in docs[id]) && (p in d ==> d[p] == docs[id][p]))
      && (p in body && p != Contrasena ==> Some(d[p]) == Cast(TypeOf(p), body[p]))
  {
    var data := UpdateData(body, hash).value;
    var patch := CastDocument(data).value;
    assert p !in body ==> p !in data;
    assert p in body && p != Contrasena ==> p in data && data[p] == body[p] && p in patch;
  }

  /** The credential rule of the update: a truthy string credential is stored
      hashed; an absent or falsy one leaves the stored hash untouched. */
  lemma {:induction false} UpdateCredentialRule(docs: Store, id: Id, body: Document, hash: string -> string)
    requires Update(docs, id, body, hash).Success?
    ensures id in docs
    ensures var d := Update(docs, id, body, hash).value;
      if Contrasena in body && Truthy(body[Contrasena]) then
        body[Contrasena].Str? && d[Contrasena] == Str(hash(body[Contrasena].s))
      else
        (Contrasena in d <==> Contrasena in docs[id]) && (Contrasena in d ==> d[Contrasena] == docs[id][Contrasena])
  {
    var data := UpdateData(body, hash).value;
    var patch := CastDocument(data).value;
    if Contrasena in data {
      assert Cast(StringType, data[Contrasena]) == Some(data[Contrasena]);
    }
  }

  /** An unknown id changes nothing: with an acceptable body it is 404. */
  lemma UpdateUnknownId(docs: Store, id: Id, body: Document, hash: string -> string)
    requires id !in docs
    ensures Update(docs, id, body, hash).Failure?
    ensures UpdateBodyAccepted(body, hash) ==> Update(docs, id, body, hash) == Failure(NotFound)
  {
  }

  /** An empty body leaves the document as it is. */
  lemma UpdateEmptyBody(docs: Store, id: Id, hash: string -> string)
    requires id in docs
    ensures Update(docs, id, map[], hash) == Success(docs[id])
  {
    var empty: Document := map[];
    assert Resto(empty) == empty;
    assert UpdateData(empty, hash) == Success(empty);
    CastConforming(empty);
    assert docs[id] + empty == docs[id];
    assert Matricula !in empty;
    assert ApplyUpdate(docs, id, empty) == Success(Some(docs[id]));
  }

  /** The profile update agrees with the administrative update on every known
      id, and answers an unknown id with an empty body. */
  lemma UpdateProfileAgrees(docs: Store, id: Id, body: Document, hash: string -> string)
    ensures id in docs ==>
      UpdateProfile(docs, id, body, hash) ==
        (match Update(docs, id, body, hash)
         case Success(d) => Success(Some(d))
         case Failure(f) => Failure(f))
    ensures id !in docs && UpdateBodyAccepted(body, hash) ==> UpdateProfile(docs, id, body, hash) == Success(None)
  {
  }

  // ---- eliminarAlumno and restaurarAlumno ----------------------------------

  /** The document with its `activo` flag set, or 404 for an unknown id. */
  function SetActivo(docs: Store, id: Id, flag: bool): (r: Result<Document, Failure>)
    ensures r.Failure? <==> id !in docs
    ensures r.Failure? ==> r.error == NotFound
  {
    if id !in docs then Failure(NotFound) else Success(docs[id][Activo := Bool(flag)])
  }

  /** Soft delete and restore change only the flag. */
  lemma SetActivoOnlyFlag(docs: Store, id: Id, flag: bool, p: Path)
    requires id in docs
    ensures var d := SetActivo(docs, id, flag).value;
      && IsActive(d) == flag
      && (p != Activo ==> (p in d <==> p in docs[id]) && (p in d ==> d[p] == docs[id][p]))
  {
  }

  /** Applying soft delete (or restore) a second time leaves the same document. */
  lemma SetActivoIdempotent(docs: Store, id: Id, flag: bool)
    requires id in docs
    ensures var once := docs[id := SetActivo(docs, id, flag).value];
      SetActivo(once, id, flag) == SetActivo(docs, id, flag)
  {
    var d := docs[id][Activo := Bool(flag)];
    assert d[Activo := Bool(flag)] == d;
  }

  /** Restoring a soft-deleted active document gives the document back. */
  lemma RestoreUndoesDelete(docs: Store, id: Id)
    requires id in docs && IsActive(docs[id])
    ensures var deleted := docs[id := SetActivo(docs, id, false).value];
      SetActivo(deleted, id, true) == Success(docs[id])
  {
    assert docs[id][Activo := Bool(false)][Activo := Bool(true)] == docs[id];
  }

  // ---- obtenerAlumnos and buscarAlumnos ------------------------------------

  /** `find({ activo: true })`: exactly the active documents. */
  function Active(docs: Store): (r: Store)
    ensures forall id :: id in r <==> id in docs && IsActive(docs[id])
    ensures forall id :: id in r ==> r[id] == docs[id]
  {
    map id | id in docs && IsActive(docs[id]) :: docs[id]
  }

  /** The search condition: `nombre` or `matricula` contains the query,
      ignoring case, read as literal text. */
  predicate MatchesQuery(d: Document, query: string) {
    || (TextAt(d, Nombre).Some? && Text.IncludesIgnoringCase(TextAt(d, Nombre).value, query))
    || (TextAt(d, Matricula).Some? && Text.IncludesIgnoringCase(TextAt(d, Matricula).value, query))
  }

  /** The documents `buscarAlumnos` returns. */
  function Search(docs: Store, query: string): (r: Store)
    ensures forall id :: id in r <==> id in docs && IsActive(docs[id]) && MatchesQuery(docs[id], query)
    ensures forall id :: id in r ==> r[id] == docs[id]
  {
    map id | id in docs && IsActive(docs[id]) && MatchesQuery(docs[id], query) :: docs[id]
  }

  /** The search result is part of the active listing. */
  lemma SearchWithinActive(docs: Store, query: string)
    ensures Search(docs, query).Keys <= Active(docs).Keys
    ensures forall id :: id in Search(docs, query) ==> Search(docs, query)[id] == Active(docs)[id]
  {
  }

  /** An empty query finds every active document, as each has a `matricula`. */
  lemma {:induction false} SearchEmptyQuery(docs: Store)
    requires forall id :: id in docs ==> WellFormed(docs[id])
    ensures Search(docs, "") == Active(docs)
  {
    forall id | id in docs
      ensures MatchesQuery(docs[id], "")
    {
      assert TextAt(docs[id], Matricula).Some?;
      assert Text.Lower("") == "";
      Text.EmptyIncluded(Text.Lower(TextAt(docs[id], Matricula).value));
    }
  }

  /** A soft-deleted document leaves the listing and the search; restoring it
      brings it back. */
  lemma DeleteHidesRestoreShows(docs: Store, id: Id, query: string)
    requires id in docs
    ensures id !in Active(docs[id := SetActivo(docs, id, false).value])
    ensures id !in Search(docs[id := SetActivo(docs, id, false).value], query)
    ensures id in Active(docs[id := SetActivo(docs, id, true).value])
    ensures MatchesQuery(docs[id], query) ==> id in Search(docs[id := SetActivo(docs, id, true).value], query)
  {
    var d := docs[id][Activo := Bool(true)];
    assert TextAt(d, Nombre) == TextAt(docs[id], Nombre);
    assert TextAt(d, Matricula) == TextAt(docs[id], Matricula);
  }

  // ---- the store invariant -------------------------------------------------

  /** A stored credential, if present, is a hash output. */
  ghost predicate CredentialIsHash(d: Document, hash: string -> string) {
    Contrasena in d ==> exists raw :: d[Contrasena] == Str(hash(raw))
  }

  /** No two stored documents share a `matricula`, active or not. */
  ghost predicate UniqueMatriculas(docs: Store) {
    forall i, j ::
      i in docs && j in docs && Matricula in docs[i] && Matricula in docs[j] && docs[i][Matricula] == docs[j][Matricula]
      ==> i == j
  }

  ghost predicate StoreInvariant(docs: Store, nextId: Id, hash: string -> string) {
    && HashChangesInput(hash)
    && (forall id :: id in docs ==> id < nextId)
    && (forall id :: id in docs ==> WellFormed(docs[id]))
    && UniqueMatriculas(docs)
    && (forall id :: id in docs ==> CredentialIsHash(docs[id], hash))
  }

  /** Inserting a document whose `matricula` no stored document holds keeps
      the `matricula`s unique. */
  lemma InsertKeepsUnique(docs: Store, k: Id, doc: Document)
    requires UniqueMatriculas(docs) && k !in docs && Matricula in doc
    requires forall j :: j in docs && Matricula in docs[j] ==> docs[j][Matricula] != doc[Matricula]
    ensures UniqueMatriculas(docs[k := doc])
  {
  }

  lemma {:induction false} CreatePreservesInvariant(docs: Store, nextId: Id, body: Document, hash: string -> string)
    requires StoreInvariant(docs, nextId, hash)
    requires Create(docs, body, hash).Success?
    ensures nextId !in docs
    ensures StoreInvariant(docs[nextId := Create(docs, body, hash).value], nextId + 1, hash)
  {
    var doc := Create(docs, body, hash).value;
    CreateStoresHash(docs, body, hash);
    assert CredentialIsHash(doc, hash) by {
      assert doc[Contrasena] == Str(hash(body[Contrasena].s));
    }
    assert !Taken(docs, doc[Matricula], None);
    InsertKeepsUnique(docs, nextId, doc);
  }

  /** Overriding some paths of a well-formed document with conforming values
      keeps it well formed. */
  lemma MergeWellFormed(d: Document, patch: Document)
    requires WellFormed(d) && Conforms(patch)
    ensures WellFormed(d + patch)
  {
    var m := d + patch;
    forall p | p in m ensures Admits(TypeOf(p), m[p]) {
      if p in patch { assert m[p] == patch[p]; } else { assert m[p] == d[p]; }
    }
  }

  /** Replacing the document at a stored id by one whose `matricula` no other
      document holds keeps the `matricula`s unique. */
  lemma ReplaceKeepsUnique(docs: Store, k: Id, doc: Document)
    requires UniqueMatriculas(docs) && k in docs && Matricula in doc
    requires forall j :: j in docs && j != k && Matricula in docs[j] ==> docs[j][Matricula] != doc[Matricula]
    ensures UniqueMatriculas(docs[k := doc])
  {
  }

  lemma {:induction false} ApplyUpdatePreservesInvariant(docs: Store, nextId: Id, id: Id, data: Document, hash: string -> string)
    requires StoreInvariant(docs, nextId, hash)
    requires Contrasena in data ==> exists raw :: data[Contrasena] == Str(hash(raw))
    requires ApplyUpdate(docs, id, data).Success? && ApplyUpdate(docs, id, data).value.Some?
    ensures id in docs
    ensures StoreInvariant(docs[id := ApplyUpdate(docs, id, data).value.value], nextId, hash)
  {
    var patch := CastDocument(data).value;
    var old_ := docs[id];
    var d := old_ + patch;
    MergeWellFormed(old_, patch);
    assert CredentialIsHash(d, hash) by {
      if Contrasena in patch {
        assert Cast(StringType, data[Contrasena]) == Some(data[Contrasena]);
        assert d[Contrasena] == data[Contrasena];
      } else if Contrasena in d {
        assert d[Contrasena] == old_[Contrasena];
        assert CredentialIsHash(old_, hash);
      }
    }
    assert forall j :: j in docs && j != id && Matricula in docs[j] ==> docs[j][Matricula] != d[Matricula] by {
      if Matricula in patch {
        assert !Taken(docs, patch[Matricula], Some(id));
        assert d[Matricula] == patch[Matricula];
      } else {
        assert d[Matricula] == old_[Matricula];
      }
    }
    ReplaceKeepsUnique(docs, id, d);
  }

  lemma {:induction false} SetActivoPreservesInvariant(docs: Store, nextId: Id, id: Id, flag: bool, hash: string -> string)
    requires StoreInvariant(docs, nextId, hash)
    requires id in docs
    ensures StoreInvariant(docs[id := SetActivo(docs, id, flag).value], nextId, hash)
  {
    var d := docs[id][Activo := Bool(flag)];
    assert d[Matricula] == docs[id][Matricula];
    assert CredentialIsHash(d, hash) by {
      if Contrasena in d {
        assert d[Contrasena] == docs[id][Contrasena];
        assert CredentialIsHash(docs[id], hash);
      }
    }
    assert forall j :: j in docs && j != id && Matricula in docs[j] ==> docs[j][Matricula] != d[Matricula];
    ReplaceKeepsUnique(docs, id, d);
  }

  // ---- the handlers over a mutable store -----------------------------------

  class AlumnoStore {
    var docs: Store
    var nextId: Id
    const hash: string -> string

    ghost predicate Valid()
      reads this
    {
      StoreInvariant(docs, nextId, hash)
    }

    constructor (hash: string -> string)
      requires HashChangesInput(hash)
      ensures Valid()
      ensures docs == map[] && this.hash == hash
    {
      this.hash := hash;
      docs := map[];
      nextId := 0;
    }

    /** obtenerAlumnos */
    method ObtenerAlumnos() returns (r: Store)
      ensures r == Active(docs)
    {
      r := map id | id in docs && IsActive(docs[id]) :: docs[id];
    }

    /** obtenerTodos: every document, active or not. */
    method ObtenerTodos() returns (r: Store)
      ensures r == docs
    {
      r := docs;
    }

    /** obtenerAlumnoPorId: the document whatever its `activo`, or 404. */
    method ObtenerAlumnoPorId(id: Id) returns (r: Result<Document, Failure>)
      ensures id in docs ==> r == Success(docs[id])
      ensures id !in docs ==> r == Failure(NotFound)
    {
      if id in docs {
        r := Success(docs[id]);
      } else {
        r := Failure(NotFound);
      }
    }

    /** verPerfil: the same lookup, answering 404 for an unknown id. */
    method VerPerfil(id: Id) returns (r: Result<Document, Failure>)
      ensures id in docs ==> r == Success(docs[id])
      ensures id !in docs ==> r == Failure(NotFound)
    {
      r := ObtenerAlumnoPorId(id);
    }

    /** crearAlumno: hash the credential, build the document, validate and
        insert it under a fresh id.  The store is unchanged on failure. */
    method CrearAlumno(body: Document) returns (r: Result<(Id, Document), Failure>)
      requires Valid()
      modifies this
      ensures Valid()
      ensures var c := Create(old(docs), body, hash);
        if c.Success? then
          r == Success((old(nextId), c.value)) && old(nextId) !in old(docs)
          && docs == old(docs)[old(nextId) := c.value] && nextId == old(nextId) + 1
        else
          r == Failure(c.error) && docs == old(docs) && nextId == old(nextId)
    {
      if Contrasena !in body || !body[Contrasena].Str? {
        return Failure(BadRequest(IllegalCredential));
      }
      var hashed := hash(body[Contrasena].s);
      var nuevo := Resto(body)[Contrasena := Str(hashed)];
      var cast := CastDocument(nuevo);
      if cast.Failure? {
        return Failure(BadRequest(CastFailed(cast.error)));
      }
      var doc := WithDefaults(cast.value);
      if !HasMatricula(doc) {
        return Failure(BadRequest(RequiredMissing(Matricula)));
      }
      if Taken(docs, doc[Matricula], None) {
        return Failure(BadRequest(DuplicateKey(Matricula)));
      }
      CreatePreservesInvariant(docs, nextId, body, hash);
      docs := docs[nextId := doc];
      r := Success((nextId, doc));
      nextId := nextId + 1;
    }

    /** The store's `findByIdAndUpdate`. */
    method FindByIdAndUpdate(id: Id, data: Document) returns (r: Result<Option<Document>, Cause>)
      requires Valid()
      requires Contrasena in data ==> exists raw :: data[Contrasena] == Str(hash(raw))
      modifies this
      ensures Valid() && nextId == old(nextId)
      ensures r == ApplyUpdate(old(docs), id, data)
      ensures docs == if r.Success? && r.value.Some? then old(docs)[id := r.value.value] else old(docs)
    {
      var cast := CastDocument(data);
      if cast.Failure? {
        return Failure(CastFailed(cast.error));
      }
      var patch := cast.value;
      if id !in docs {
        return Success(None);
      }
      if Matricula in patch && Taken(docs, patch[Matricula], Some(id)) {
        return Failure(DuplicateKey(Matricula));
      }
      ApplyUpdatePreservesInvariant(docs, nextId, id, data, hash);
      var updated := docs[id] + patch;
      docs := docs[id := updated];
      r := Success(Some(updated));
    }

    /** Build `datosActualizados` step by step; a truthy credential is hashed. */
    method DatosActualizados(body: Document) returns (r: Result<Document, Cause>)
      ensures r == UpdateData(body, hash)
    {
      var resto := Resto(body);
      var datos := resto;
      if Contrasena in body && Truthy(body[Contrasena]) {
        if !body[Contrasena].Str? {
          return Failure(IllegalCredential);
        }
        datos := resto[Contrasena := Str(hash(body[Contrasena].s))];
      }
      r := Success(datos);
    }

    /** actualizarAlumno */
    method ActualizarAlumno(id: Id, body: Document) returns (r: Result<Document, Failure>)
      requires Valid()
      modifies this
      ensures Valid() && nextId == old(nextId)
      ensures r == Update(old(docs), id, body, hash)
      ensures docs == if r.Success? then old(docs)[id := r.value] else old(docs)
    {
      var datos := DatosActualizados(body);
      if datos.Failure? {
        return Failure(ServerError(datos.error));
      }
      var actualizado := FindByIdAndUpdate(id, datos.value);
      if actualizado.Failure? {
        return Failure(ServerError(actualizado.error));
      }
      if actualizado.value.Some? {
        r := Success(actualizado.value.value);
      } else {
        r := Failure(NotFound);
      }
    }

    /** actualizarPerfil: the same merge; an unknown id answers `null`. */
    method ActualizarPerfil(id: Id, body: Document) returns (r: Result<Option<Document>, Failure>)
      requires Valid()
      modifies this
      ensures Valid() && nextId == old(nextId)
      ensures r == UpdateProfile(old(docs), id, body, hash)
      ensures docs == if r.Success? && r.value.Some? then old(docs)[id := r.value.value] else old(docs)
    {
      var datos := DatosActualizados(body);
      if datos.Failure? {
        return Failure(ServerError(datos.error));
      }
      var actualizado := FindByIdAndUpdate(id, datos.value);
      if actualizado.Failure? {
        return Failure(ServerError(actualizado.error));
      }
      r := Success(actualizado.value);
    }

    /** eliminarAlumno: soft delete. */
    method EliminarAlumno(id: Id) returns (r: Result<string, Failure>)
      requires Valid()
      modifies this
      ensures Valid() && nextId == old(nextId)
      ensures id in old(docs) ==>
        r == Success("Alumno marcado como inactivo") && docs == old(docs)[id := SetActivo(old(docs), id, false).value]
      ensures id !in old(docs) ==> r == Failure(NotFound) && docs == old(docs)
    {
      if id !in docs {
        return Failure(NotFound);
      }
      SetActivoPreservesInvariant(docs, nextId, id, false, hash);
      var alumno := docs[id];
      alumno := alumno[Activo := Bool(false)];
      docs := docs[id := alumno];
      r := Success("Alumno marcado como inactivo");
    }

    /** restaurarAlumno */
    method RestaurarAlumno(id: Id) returns (r: Result<string, Failure>)
      requires Valid()
      modifies this
      ensures Valid() && nextId == old(nextId)
      ensures id in old(docs) ==>
        r == Success("Alumno reactivado exitosamente") && docs == old(docs)[id := SetActivo(old(docs), id, true).value]
      ensures id !in old(docs) ==> r == Failure(NotFound) && docs == old(docs)
    {
      if id !in docs {
        return Failure(NotFound);
      }
      SetActivoPreservesInvariant(docs, nextId, id, true, hash);
      var alumno := docs[id];
      alumno := alumno[Activo := Bool(true)];
      docs := docs[id := alumno];
      r := Success("Alumno reactivado exitosamente");
    }

    /** buscarAlumnos */
    method BuscarAlumnos(query: string) returns (r: Store)
      ensures r == Search(docs, query)
    {
      r := map id | id in docs && IsActive(docs[id]) && MatchesQuery(docs[id], query) :: docs[id];
    }
  }
}
