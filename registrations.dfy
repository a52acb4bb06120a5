/**
 * The registration record as the server's schema defines it, and the
 * submission handler: the uploaded photo's path replaces any `photo` in the
 * form body, the record is built from the body's fields, and the schema's
 * `required` and `enum` rules decide whether it is stored. Saving itself
 * (the database write) is not modelled; an `Ok` result is the record that
 * would be saved.
 */
module Registrations {
  import opened Wrappers
  import opened Text
  import opened Upload

  /** The closed set of `whoareyou` values the schema's `enum` admits. */
  const Categories: seq<string> := ["student", "employee", "business"]

  /** Where a record's `createdAt` came from: the schema default `Date.now`, or a `createdAt` field of the form body. */
  datatype Stamp = ServerClock(ms: nat) | FromBody(text: string)

  /** Where a record's `_id` came from: generated when the document is made, or the form body's `_id` field. */
  datatype Identity = GeneratedId | IdFromBody(text: string)

  /** One registration document; `None` is an unset (undefined) path. */
  datatype Registration = Registration(
    firstName: Option<string>,
    middleName: Option<string>,
    lastName: Option<string>,
    mobile: Option<string>,
    email: Option<string>,
    dob: Option<string>,
    address: Option<string>,
    photo: Option<string>,
    whoareyou: Option<string>,
    degree: Option<string>,
    institution: Option<string>,
    empDegree: Option<string>,
    profession: Option<string>,
    company: Option<string>,
    designation: Option<string>,
    busDegree: Option<string>,
    businessType: Option<string>,
    businessName: Option<string>,
    createdAt: Stamp,
    id: Identity)

  /** A validation failure of one schema path. */
  datatype SchemaError =
    | Required(path: string)
    | NotInEnum(path: string, value: string)
    | NotADate(path: string, value: string)
    | NotAnObjectId(path: string, value: string)

  /** Why a submission produced no record. */
  datatype Failure = UploadRejected(reason: UploadError) | ValidationFailed(errors: seq<SchemaError>)

  /** The environment of one request: `Date.now()`, a `Math.random()` draw, `__dirname` and the platform path separator. */
  datatype Env = Env(now: nat, draw: real, root: string, sep: char)

  predicate ValidEnv(env: Env) {
    0.0 <= env.draw < 1.0
  }

  /** A hexadecimal digit, either case. */
  predicate IsHexDigit(c: char) {
    '0' <= c <= '9' || 'a' <= c <= 'f' || 'A' <= c <= 'F'
  }

  /** Text that casts to an ObjectId: exactly 24 hexadecimal digits. */
  predicate IsObjectIdText(t: string) {
    |t| == 24 && forall i :: 0 <= i < |t| ==> IsHexDigit(t[i])
  }

  /** A schema `required` check on a String path fails for an unset value and for the empty string. */
  predicate Missing(v: Option<string>) {
    v.None? || v.value == ""
  }

  /** `${v}` in a template literal: an unset path prints as `undefined`. */
  function Show(v: Option<string>): (s: string)
    ensures v.Some? ==> s == v.value
    ensures v.None? ==> s == "undefined"
  {
    match v
    case Some(x) => x
    case None => "undefined"
  }

  /** The value of a form field, unset when the body lacks it. */
  function Field(body: map<string, string>, key: string): Option<string> {
    if key in body then Some(body[key]) else None
  }

  /** The schema paths filled from form text, in schema order (`dob` holds the submitted text, which `DateCheck` casts). */
  datatype TextPath =
    | FirstName | MiddleName | LastName | Mobile | Email | Dob | Address | Photo | WhoAreYou
    | Degree | Institution | EmpDegree | Profession | Company | Designation
    | BusDegree | BusinessType | BusinessName

  /** The name of a path, which is also the form field it is filled from. */
  function PathName(p: TextPath): string {
    match p
    case FirstName => "firstName"
    case MiddleName => "middleName"
    case LastName => "lastName"
    case Mobile => "mobile"
    case Email => "email"
    case Dob => "dob"
    case Address => "address"
    case Photo => "photo"
    case WhoAreYou => "whoareyou"
    case Degree => "degree"
    case Institution => "institution"
    case EmpDegree => "empDegree"
    case Profession => "profession"
    case Company => "company"
    case Designation => "designation"
    case BusDegree => "busDegree"
    case BusinessType => "businessType"
    case BusinessName => "businessName"
  }

  /** `doc.get(path)` for a text path. */
  function PathValue(r: Registration, p: TextPath): Option<string> {
    match p
    case FirstName => r.firstName
    case MiddleName => r.middleName
    case LastName => r.lastName
    case Mobile => r.mobile
    case Email => r.email
    case Dob => r.dob
    case Address => r.address
    case Photo => r.photo
    case WhoAreYou => r.whoareyou
    case Degree => r.degree
    case Institution => r.institution
    case EmpDegree => r.empDegree
    case Profession => r.profession
    case Company => r.company
    case Designation => r.designation
    case BusDegree => r.busDegree
    case BusinessType => r.businessType
    case BusinessName => r.businessName
  }

  /**
   * `new Registration({ ...req.body, photo: photoPath })`: every schema path
   * is read from the body except `photo`, which is always `photoPath`; other
   * keys are dropped, except `_id`, the identity path every schema has, which
   * the body can set too. `createdAt` falls back to the clock, and `_id` to a
   * generated identity, only when the body does not supply it.
   */
  function BuildRecord(body: map<string, string>, photoPath: string, now: nat): (r: Registration)
    ensures r.photo == Some(photoPath)
    ensures forall p :: p != Photo ==> PathValue(r, p) == Field(body, PathName(p))
    ensures r.firstName == Field(body, "firstName") && r.lastName == Field(body, "lastName")
    ensures r.createdAt == if "createdAt" in body then FromBody(body["createdAt"]) else ServerClock(now)
    ensures r.id == if "_id" in body then IdFromBody(body["_id"]) else GeneratedId
  {
    Registration(
      Field(body, "firstName"), Field(body, "middleName"), Field(body, "lastName"),
      Field(body, "mobile"), Field(body, "email"), Field(body, "dob"), Field(body, "address"),
      Some(photoPath), Field(body, "whoareyou"),
      Field(body, "degree"), Field(body, "institution"),
      Field(body, "empDegree"), Field(body, "profession"), Field(body, "company"), Field(body, "designation"),
      Field(body, "busDegree"), Field(body, "businessType"), Field(body, "businessName"),
      if "createdAt" in body then FromBody(body["createdAt"]) else ServerClock(now),
      if "_id" in body then IdFromBody(body["_id"]) else GeneratedId)
  }

  function RequiredCheck(path: string, v: Option<string>): seq<SchemaError> {
    if Missing(v) then [Required(path)] else []
  }

  /** A Date path: unset or empty fails `required` when the path is required; other text must parse as a date. */
  function DateCheck(path: string, v: Option<string>, required: bool, isDate: string -> bool): seq<SchemaError> {
    if Missing(v) then (if required then [Required(path)] else [])
    else if !isDate(v.value) then [NotADate(path, v.value)]
    else []
  }

  function CategoryCheck(v: Option<string>): seq<SchemaError> {
    if Missing(v) then [Required("whoareyou")]
    else if v.value !in Categories then [NotInEnum("whoareyou", v.value)]
    else []
  }

  function StampCheck(s: Stamp, isDate: string -> bool): seq<SchemaError> {
    match s
    case ServerClock(_) => []
    case FromBody(t) => DateCheck("createdAt", Some(t), false, isDate)
  }

  /** A body-supplied `_id` must cast to an ObjectId; a generated one always does. */
  function IdCheck(id: Identity): seq<SchemaError> {
    match id
    case GeneratedId => []
    case IdFromBody(t) => if IsObjectIdText(t) then [] else [NotAnObjectId("_id", t)]
  }

  /**
   * Every schema violation of a record, path by path in schema order with
   * the `_id` cast last; the schema reports them all together. `isDate` says which texts cast to a
   * valid `Date`.
   */
  function SchemaErrors(r: Registration, isDate: string -> bool): seq<SchemaError> {
    RequiredCheck("firstName", r.firstName)
    + RequiredCheck("lastName", r.lastName)
    + RequiredCheck("mobile", r.mobile)
    + RequiredCheck("email", r.email)
    + DateCheck("dob", r.dob, true, isDate)
    + RequiredCheck("address", r.address)
    + RequiredCheck("photo", r.photo)
    + CategoryCheck(r.whoareyou)
    + StampCheck(r.createdAt, isDate)
    + IdCheck(r.id)
  }

  /** All required-field violations are reported, not just the first: a required path is listed exactly when its value is missing. */
  lemma SchemaReportsEveryMissingField(r: Registration, isDate: string -> bool)
    ensures Required("firstName") in SchemaErrors(r, isDate) <==> Missing(r.firstName)
    ensures Required("lastName") in SchemaErrors(r, isDate) <==> Missing(r.lastName)
    ensures Required("mobile") in SchemaErrors(r, isDate) <==> Missing(r.mobile)
    ensures Required("email") in SchemaErrors(r, isDate) <==> Missing(r.email)
    ensures Required("dob") in SchemaErrors(r, isDate) <==> Missing(r.dob)
    ensures Required("address") in SchemaErrors(r, isDate) <==> Missing(r.address)
    ensures Required("photo") in SchemaErrors(r, isDate) <==> Missing(r.photo)
    ensures Required("whoareyou") in SchemaErrors(r, isDate) <==> Missing(r.whoareyou)
  {
    PathsDistinct();
    RequiredAmongErrors(r, isDate, "firstName");
    RequiredAmongErrors(r, isDate, "lastName");
    RequiredAmongErrors(r, isDate, "mobile");
    RequiredAmongErrors(r, isDate, "email");
    RequiredAmongErrors(r, isDate, "dob");
    RequiredAmongErrors(r, isDate, "address");
    RequiredAmongErrors(r, isDate, "photo");
    RequiredAmongErrors(r, isDate, "whoareyou");
  }

  /** The paths a `required` error can name, each with the value it is reported for. */
  lemma RequiredAmongErrors(r: Registration, isDate: string -> bool, p: string)
    ensures Required(p) in SchemaErrors(r, isDate) <==>
      || (p == "firstName" && Missing(r.firstName)) || (p == "lastName" && Missing(r.lastName))
      || (p == "mobile" && Missing(r.mobile)) || (p == "email" && Missing(r.email))
      || (p == "dob" && Missing(r.dob)) || (p == "address" && Missing(r.address))
      || (p == "photo" && Missing(r.photo)) || (p == "whoareyou" && Missing(r.whoareyou))
  {
    var stamp := StampCheck(r.createdAt, isDate);
    assert Required(p) !in stamp;
    assert Required(p) !in IdCheck(r.id);
  }

  /** The schema's required paths are distinct names. */
  lemma PathsDistinct()
    ensures "firstName" != "lastName" && "firstName" != "mobile" && "firstName" != "email" && "firstName" != "dob"
    ensures "firstName" != "address" && "firstName" != "photo" && "firstName" != "whoareyou"
    ensures "lastName" != "mobile" && "lastName" != "email" && "lastName" != "dob" && "lastName" != "address"
    ensures "lastName" != "photo" && "lastName" != "whoareyou"
    ensures "mobile" != "email" && "mobile" != "dob" && "mobile" != "address" && "mobile" != "photo" && "mobile" != "whoareyou"
    ensures "email" != "dob" && "email" != "address" && "email" != "photo" && "email" != "whoareyou"
    ensures "dob" != "address" && "dob" != "photo" && "dob" != "whoareyou"
    ensures "address" != "photo" && "address" != "whoareyou" && "photo" != "whoareyou"
  {
  }

  /** What the schema demands of a record before it is saved. */
  predicate SchemaValid(r: Registration, isDate: string -> bool) {
    && !Missing(r.firstName) && !Missing(r.lastName) && !Missing(r.mobile) && !Missing(r.email)
    && !Missing(r.dob) && isDate(r.dob.value)
    && !Missing(r.address) && !Missing(r.photo)
    && r.whoareyou.Some? && r.whoareyou.value in Categories
    && (r.createdAt.FromBody? && r.createdAt.text != "" ==> isDate(r.createdAt.text))
    && (r.id.IdFromBody? ==> IsObjectIdText(r.id.text))
  }

  /** The schema reports no error exactly when the record meets every rule. */
  lemma SchemaAcceptsIff(r: Registration, isDate: string -> bool)
    ensures SchemaErrors(r, isDate) == [] <==> SchemaValid(r, isDate)
  {
  }

  /**
   * `POST /api/register`: the photo part (if any) is admitted or refused,
   * then the record built from the body and the photo path is validated.
   * With no file the photo path is the empty string.
   */
  function Register(body: map<string, string>, file: Option<FileInfo>, env: Env, isDate: string -> bool): Result<Registration, Failure>
    requires ValidEnv(env)
  {
    var photoPath: Result<string, UploadError> :=
      match file
      case None => Ok("")
      case Some(f) => Receive(f, env.now, env.draw, env.root, env.sep);
    match photoPath
    case Err(e) => Err(UploadRejected(e))
    case Ok(p) =>
      var r := BuildRecord(body, p, env.now);
      var errors := SchemaErrors(r, isDate);
      if errors == [] then Ok(r) else Err(ValidationFailed(errors))
  }

  /** A stored record's photo is the path of the file uploaded with it; without an admitted file no record is stored. */
  lemma RegisteredPhotoIsUpload(body: map<string, string>, file: Option<FileInfo>, env: Env, isDate: string -> bool)
    requires ValidEnv(env)
    ensures Register(body, file, env, isDate).Ok? ==>
      file.Some? && Admit(file.value).None?
      && Register(body, file, env, isDate).value.photo
         == Some(UploadPath(env.root, env.sep, StoredName(env.now, RandomSuffix(env.draw), file.value.originalName)))
  {
  }

  /** A `photo` field in the form body has no effect on the outcome. */
  lemma BodyPhotoIgnored(body: map<string, string>, value: string, file: Option<FileInfo>, env: Env, isDate: string -> bool)
    requires ValidEnv(env)
    ensures Register(body["photo" := value], file, env, isDate) == Register(body, file, env, isDate)
  {
    var body' := body["photo" := value];
    forall p: string ensures BuildRecord(body', p, env.now) == BuildRecord(body, p, env.now) {
    }
  }

  /** A submission without a file is refused, and the refusal names the `photo` path. */
  lemma NoFileNoRecord(body: map<string, string>, env: Env, isDate: string -> bool)
    requires ValidEnv(env)
    ensures Register(body, None, env, isDate).Err?
    ensures Register(body, None, env, isDate).error.ValidationFailed?
    ensures Required("photo") in Register(body, None, env, isDate).error.errors
  {
  }

  /** A stored record holds every text field exactly as the form sent it, the category-specific ones included. */
  lemma RegisteredKeepsBody(body: map<string, string>, file: Option<FileInfo>, env: Env, isDate: string -> bool)
    requires ValidEnv(env)
    requires Register(body, file, env, isDate).Ok?
    ensures forall p :: p != Photo ==> PathValue(Register(body, file, env, isDate).value, p) == Field(body, PathName(p))
  {
  }

  /** A student's degree and institution come back as entered, and so does the category. */
  lemma StudentRoundTrip(body: map<string, string>, file: Option<FileInfo>, env: Env, isDate: string -> bool)
    requires ValidEnv(env)
    requires Register(body, file, env, isDate).Ok?
    ensures var r := Register(body, file, env, isDate).value;
      r.whoareyou == Field(body, "whoareyou") && r.degree == Field(body, "degree")
      && r.institution == Field(body, "institution")
  {
    RegisteredKeepsBody(body, file, env, isDate);
    StudentFieldsFromBody(Register(body, file, env, isDate).value, body);
  }

  lemma StudentFieldsFromBody(r: Registration, body: map<string, string>)
    requires forall p :: p != Photo ==> PathValue(r, p) == Field(body, PathName(p))
    ensures r.whoareyou == Field(body, "whoareyou") && r.degree == Field(body, "degree")
    ensures r.institution == Field(body, "institution")
  {
    assert PathValue(r, WhoAreYou) == r.whoareyou;
    assert PathValue(r, Degree) == r.degree;
    assert PathValue(r, Institution) == r.institution;
  }

  /** A refused upload leaves no record, whatever the body says. */
  lemma RefusedUploadNoRecord(body: map<string, string>, f: FileInfo, env: Env, isDate: string -> bool)
    requires ValidEnv(env)
    requires Admit(f).Some?
    ensures Register(body, Some(f), env, isDate) == Err(UploadRejected(Admit(f).value))
  {
  }

  /** A stored record satisfies the schema: required paths set and non-empty, category in the enum. */
  lemma RegisteredRecordIsComplete(body: map<string, string>, file: Option<FileInfo>, env: Env, isDate: string -> bool)
    requires ValidEnv(env)
    requires Register(body, file, env, isDate).Ok?
    ensures var r := Register(body, file, env, isDate).value;
      !Missing(r.firstName) && !Missing(r.lastName) && !Missing(r.mobile) && !Missing(r.email)
      && !Missing(r.dob) && !Missing(r.address) && !Missing(r.photo)
      && r.whoareyou.Some? && r.whoareyou.value in Categories
  {
    SchemaAcceptsIff(Register(body, file, env, isDate).value, isDate);
  }

  /** A stored record's identity is the body's `_id` whenever the body has one: the client chooses it. */
  lemma BodyIdKept(body: map<string, string>, file: Option<FileInfo>, env: Env, isDate: string -> bool)
    requires ValidEnv(env)
    requires "_id" in body
    ensures Register(body, file, env, isDate).Ok? ==>
      Register(body, file, env, isDate).value.id == IdFromBody(body["_id"])
  {
  }

  /**
   * A body `_id` that is not an ObjectId makes the save fail, whatever else
   * the body holds: the request stores nothing, and when the upload was
   * admitted the refusal names the `_id` cast.
   */
  lemma BadIdRefused(body: map<string, string>, file: Option<FileInfo>, env: Env, isDate: string -> bool)
    requires ValidEnv(env)
    requires "_id" in body && !IsObjectIdText(body["_id"])
    ensures Register(body, file, env, isDate).Err?
    ensures Register(body, file, env, isDate).error.ValidationFailed? ==>
      NotAnObjectId("_id", body["_id"]) in Register(body, file, env, isDate).error.errors
  {
  }

  /** The creation time is the body's `createdAt` whenever the body has one. */
  lemma BodyCreatedAtKept(body: map<string, string>, file: Option<FileInfo>, env: Env, isDate: string -> bool)
    requires ValidEnv(env)
    requires "createdAt" in body
    ensures Register(body, file, env, isDate).Ok? ==>
      Register(body, file, env, isDate).value.createdAt == FromBody(body["createdAt"])
  {
  }
}
