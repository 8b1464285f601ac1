/** The sign-up page: its ordered validation, the payload it submits, and
    where it goes afterwards. */
module RegisterPage {
  import opened Wrappers
  import Seqs
  import Text
  import MockDb
  import Auth
  import Navigation

  datatype VehicleType = Car | Motorcycle | Bicycle | NoVehicle

  /** The select's value: `"CAR"`, `"MOTORCYCLE"`, `"BICYCLE"` or `"NONE"`. */
  function TypeName(t: VehicleType): string {
    match t
    case Car => "CAR"
    case Motorcycle => "MOTORCYCLE"
    case Bicycle => "BICYCLE"
    case NoVehicle => "NONE"
  }

  datatype Form = Form(
    name: string,
    email: string,
    password: string,
    confirm: string,
    vehicleType: VehicleType,
    plate: string)

  /** One validation step: whether it fails, and its message. */
  datatype Check = Check(fails: bool, message: string)

  /** The checks in the order the page runs them. */
  function Checks(f: Form): (cs: seq<Check>)
    ensures |cs| == 5
  {
    [ Check(Text.IsBlank(f.name), "Name is required"),
      Check(Text.IsBlank(f.email), "Email is required"),
      Check(Text.Utf16Length(f.password) < 6, "Password must be at least 6 characters"),
      Check(f.password != f.confirm, "Passwords do not match"),
      Check(f.vehicleType != NoVehicle && Text.IsBlank(f.plate),
            "License plate is required for selected vehicle type") ]
  }

  /** `onSubmit`'s guard clauses, each returning on the first failure. */
  function Validate(f: Form): (e: Option<string>)
    ensures e.None? <==> !Text.IsBlank(f.name) && !Text.IsBlank(f.email) && Text.Utf16Length(f.password) >= 6
                         && f.password == f.confirm && (f.vehicleType != NoVehicle ==> !Text.IsBlank(f.plate))
    ensures e.Some? ==> e.value in {"Name is required", "Email is required", "Password must be at least 6 characters",
                                    "Passwords do not match", "License plate is required for selected vehicle type"}
  {
    if Text.IsBlank(f.name) then Some("Name is required")
    else if Text.IsBlank(f.email) then Some("Email is required")
    else if Text.Utf16Length(f.password) < 6 then Some("Password must be at least 6 characters")
    else if f.password != f.confirm then Some("Passwords do not match")
    else if f.vehicleType != NoVehicle && Text.IsBlank(f.plate) then
      Some("License plate is required for selected vehicle type")
    else None
  }

  /** The guard clauses agree with the check table: the form passes exactly
      when no check fails ... */
  lemma ValidatePasses(f: Form)
    ensures Validate(f).None? <==> forall k :: 0 <= k < |Checks(f)| ==> !Checks(f)[k].fails
  {
    var cs := Checks(f);
    var b0, b1 := Text.IsBlank(f.name), Text.IsBlank(f.email);
    var b2, b3 := Text.Utf16Length(f.password) < 6, f.password != f.confirm;
    var b4 := f.vehicleType != NoVehicle && Text.IsBlank(f.plate);
    assert cs[0].fails == b0 && cs[1].fails == b1 && cs[2].fails == b2;
    assert cs[3].fails == b3 && cs[4].fails == b4;
    assert Validate(f).None? <==> !b0 && !b1 && !b2 && !b3 && !b4;
    if !b0 && !b1 && !b2 && !b3 && !b4 {
      forall k | 0 <= k < |cs| ensures !cs[k].fails {
        assert k == 0 || k == 1 || k == 2 || k == 3 || k == 4;
      }
    }
  }

  /** ... and otherwise the message reported is that of the first failing
      check. */
  lemma ValidateFirstFailure(f: Form, k: nat)
    requires k < |Checks(f)| && Checks(f)[k].fails
    requires forall m :: 0 <= m < k ==> !Checks(f)[m].fails
    ensures Validate(f) == Some(Checks(f)[k].message)
  {
    var cs := Checks(f);
    if k > 0 { assert !cs[0].fails; }
    if k > 1 { assert !cs[1].fails; }
    if k > 2 { assert !cs[2].fails; }
    if k > 3 { assert !cs[3].fails; }
  }

  /** The length check counts UTF-16 code units, as JavaScript's `length`
      does: three emoji make a six-unit password, which passes. */
  lemma EmojiPasswordPasses()
    ensures Validate(Form("Ann", "ann@example.com", "\U{1F600}\U{1F600}\U{1F600}", "\U{1F600}\U{1F600}\U{1F600}", NoVehicle, "")).None?
  {
    Text.Utf16LengthExamples();
    SampleFilled();
  }

  /** The sample name and e-mail are filled in. */
  lemma SampleFilled()
    ensures !Text.IsBlank("Ann") && !Text.IsBlank("ann@example.com")
  {
    assert !Text.IsSpace("Ann"[0]);
    Text.BlankIffAllSpace("Ann");
    assert !Text.IsSpace("ann@example.com"[0]);
    Text.BlankIffAllSpace("ann@example.com");
  }

  datatype Vehicle = Vehicle(kind: string, plate: string)

  datatype Payload = Payload(name: string, email: string, password: string, vehicle: Option<Vehicle>)

  /** The submitted vehicle: none for NONE, else the lower-cased type and the
      trimmed plate. */
  function VehicleOf(f: Form): (v: Option<Vehicle>)
    ensures v.None? <==> f.vehicleType == NoVehicle
    ensures v.Some? ==> v.value.kind == Text.ToLower(TypeName(f.vehicleType)) && v.value.plate == Text.Trim(f.plate)
  {
    if f.vehicleType == NoVehicle then None
    else Some(Vehicle(Text.ToLower(TypeName(f.vehicleType)), Text.Trim(f.plate)))
  }

  /** `onSubmit`: the first failing check's message, or the payload
      `registerUser` receives, with trimmed name and e-mail and the password
      as typed. */
  function Submit(f: Form): (r: Result<Payload, string>)
    ensures r.Failure? <==> Validate(f).Some?
    ensures r.Failure? ==> r.error == Validate(f).value
    ensures r.Success? ==> r.value == Payload(Text.Trim(f.name), Text.Trim(f.email), f.password, VehicleOf(f))
  {
    match Validate(f)
    case Some(e) => Failure(e)
    case None => Success(Payload(Text.Trim(f.name), Text.Trim(f.email), f.password, VehicleOf(f)))
  }

  /** The kinds the page sends are `car`, `motorcycle` and `bicycle`. */
  lemma VehicleKinds(f: Form)
    requires f.vehicleType != NoVehicle
    ensures VehicleOf(f).value.kind in {"car", "motorcycle", "bicycle"}
  {
    var n := TypeName(f.vehicleType);
    var l := Text.ToLower(n);
    if f.vehicleType == Car {
      assert n == "CAR";
      assert l[0] == 'c' && l[1] == 'a' && l[2] == 'r';
      assert l == "car";
    } else if f.vehicleType == Motorcycle {
      assert n == "MOTORCYCLE";
      assert l[0] == 'm' && l[1] == 'o' && l[2] == 't' && l[3] == 'o' && l[4] == 'r';
      assert l[5] == 'c' && l[6] == 'y' && l[7] == 'c' && l[8] == 'l' && l[9] == 'e';
      assert l == "motorcycle";
    } else {
      assert n == "BICYCLE";
      assert l[0] == 'b' && l[1] == 'i' && l[2] == 'c' && l[3] == 'y' && l[4] == 'c' && l[5] == 'l' && l[6] == 'e';
      assert l == "bicycle";
    }
  }

  /** The vehicle record the mock backend stores for a payload vehicle (`{}`
      when there is none). */
  function VehicleRecord(v: Option<Vehicle>): map<string, string> {
    if v.None? then map[] else map["type" := v.value.kind, "plate" := v.value.plate]
  }

  /** Whatever the page submits passes the mock backend's name and password
      checks, so its `register` then succeeds exactly when the e-mail is not
      in use. */
  lemma SubmittedFormRegisters(f: Form, db: MockDb.Db, newId: string)
    requires Submit(f).Success?
    ensures var p := Submit(f).value;
            Auth.Register(db, p.name, p.email, p.password, VehicleRecord(p.vehicle), newId).result.Success?
            <==> !Auth.EmailInUse(db.users, p.email)
  {
    var p := Submit(f).value;
    assert p.name == Text.Trim(f.name) && p.password == f.password;
    Text.TrimIdempotent(f.name);
    BackendAcceptsValid(db, p.name, p.email, p.password, VehicleRecord(p.vehicle), newId);
  }

  lemma BackendAcceptsValid(db: MockDb.Db, name: string, email: string, password: string,
                            vehicle: map<string, string>, newId: string)
    requires !Text.IsBlank(name) && Text.Utf16Length(password) >= 6
    ensures Auth.Register(db, name, email, password, vehicle, newId).result.Success?
            <==> !Auth.EmailInUse(db.users, email)
  {
  }

  /** After a successful registration: Admin exactly when the returned role is
      ADMIN; a missing role counts as RESIDENT. */
  function AfterRegister(role: Option<MockDb.Role>): (r: Navigation.Route)
    ensures r == Navigation.Admin <==> role == Some(MockDb.Admin)
    ensures r == Navigation.Home <==> role != Some(MockDb.Admin)
  {
    Navigation.RoleHome(role.GetOr(MockDb.Resident))
  }

  /** The message shown when `registerUser` throws: its own message, or
      "Registration failed" when it has none. */
  function FailureText(message: Option<string>): (t: string)
    ensures message.Some? ==> t == message.value
    ensures message.None? ==> t == "Registration failed"
  {
    message.GetOr("Registration failed")
  }
}

/** The resident editor form: it reports every invalid field at once and
    submits only a form without errors. */
module ResidentForm {
  import opened Wrappers
  import Text

  /** The form's fields; the vehicle type is `"car"`, `"motorcycle"` or
      `"none"`. */
  datatype Resident = Resident(name: string, email: string, vehicleType: string, plate: Option<string>)

  /** The optional initial values. */
  datatype Initial = Initial(name: Option<string>, email: Option<string>,
                             vehicleType: Option<string>, plate: Option<string>)

  /** The starting form: each missing initial value defaults to `""`, except
      the vehicle type, which defaults to `"car"`. */
  function Start(initial: Option<Initial>): (f: Resident)
    ensures initial.None? ==> f == Resident("", "", "car", Some(""))
    ensures initial.Some? ==> f.name == initial.value.name.GetOr("") && f.email == initial.value.email.GetOr("")
    ensures initial.Some? ==> f.vehicleType == initial.value.vehicleType.GetOr("car")
    ensures initial.Some? ==> f.plate == Some(initial.value.plate.GetOr(""))
  {
    if initial.None? then Resident("", "", "car", Some(""))
    else
      var i := initial.value;
      Resident(i.name.GetOr(""), i.email.GetOr(""), i.vehicleType.GetOr("car"), Some(i.plate.GetOr("")))
  }

  /** `!form.plate?.trim()`: no plate, or one that is blank. */
  predicate PlateMissing(plate: Option<string>) {
    plate.None? || Text.IsBlank(plate.value)
  }

  /** `submit`'s error map: one entry per invalid field. */
  function Errors(f: Resident): (e: map<string, string>)
    ensures "name" in e <==> Text.IsBlank(f.name)
    ensures "email" in e <==> Text.IsBlank(f.email)
    ensures "plate" in e <==> f.vehicleType != "none" && PlateMissing(f.plate)
    ensures forall k :: k in e ==> k in {"name", "email", "plate"}
    ensures "name" in e ==> e["name"] == "Name is required"
    ensures "email" in e ==> e["email"] == "Email is required"
    ensures "plate" in e ==> e["plate"] == "Plate required"
  {
    ErrorMap(Text.IsBlank(f.name), Text.IsBlank(f.email), f.vehicleType != "none" && PlateMissing(f.plate))
  }

  /** The error map given which of the three fields fail. */
  function ErrorMap(nameFails: bool, emailFails: bool, plateFails: bool): (e: map<string, string>)
    ensures "name" in e <==> nameFails
    ensures "email" in e <==> emailFails
    ensures "plate" in e <==> plateFails
    ensures forall k :: k in e ==> k in {"name", "email", "plate"}
    ensures forall k :: k in e ==> e[k] == Message(k)
  {
    var failing := (if nameFails then {"name"} else {})
                 + (if emailFails then {"email"} else {})
                 + (if plateFails then {"plate"} else {});
    map k | k in failing :: Message(k)
  }

  /** The message shown under each field. */
  function Message(field: string): string {
    if field == "name" then "Name is required"
    else if field == "email" then "Email is required"
    else "Plate required"
  }

  /** `submit`: the form handed to `onSubmit`, or the errors that stop it. */
  function Submit(f: Resident): (r: Result<Resident, map<string, string>>)
    ensures r.Success? <==> |Errors(f)| == 0
    ensures r.Success? ==> r.value == f
    ensures r.Failure? ==> r.error == Errors(f)
  {
    var e := Errors(f);
    if |e| != 0 then Failure(e) else Success(f)
  }

  /** Every failing field is reported, not just the first: a form with a blank
      name and a blank e-mail reports both. */
  lemma AllFailuresReported(f: Resident)
    requires Text.IsBlank(f.name) && Text.IsBlank(f.email)
    ensures Submit(f).Failure? && "name" in Submit(f).error && "email" in Submit(f).error
  {
  }

  /** A form is submitted exactly when the name and e-mail are filled in and
      a plate is given unless the vehicle type is `"none"`. */
  lemma SubmitIffValid(f: Resident)
    ensures Submit(f).Success? <==>
      !Text.IsBlank(f.name) && !Text.IsBlank(f.email) && (f.vehicleType == "none" || !PlateMissing(f.plate))
  {
    var e := Errors(f);
    if Text.IsBlank(f.name) {
      assert "name" in e;
    } else if Text.IsBlank(f.email) {
      assert "email" in e;
    } else if f.vehicleType != "none" && PlateMissing(f.plate) {
      assert "plate" in e;
    } else {
      assert e.Keys <= {"name", "email", "plate"};
      assert e.Keys == {};
    }
  }

  /** The empty starting form is not submitted: the name and e-mail are
      missing, and so is the plate of the default car. */
  lemma EmptyStartRejected()
    ensures Submit(Start(None)).Failure?
    ensures Submit(Start(None)).error == map["name" := "Name is required", "email" := "Email is required",
                                             "plate" := "Plate required"]
  {
    var f := Start(None);
    assert Text.IsBlank("") by {
      Text.BlankIffAllSpace("");
    }
    var e := Errors(f);
    assert e.Keys == {"name", "email", "plate"};
  }
}

/** The sign-in page: its two required fields and its redirect. */
module LoginPage {
  import opened Wrappers
  import Text
  import MockDb
  import Auth
  import Navigation
  import RegisterPage

  /** The credentials `login` receives, exactly as typed. */
  datatype Credentials = Credentials(email: string, password: string)

  /** `onSubmit`: "Email is required" for a blank e-mail, then "Password is
      required" for a blank password; otherwise `login` is called with the
      untrimmed values. */
  function Submit(email: string, password: string): (r: Result<Credentials, string>)
    ensures r.Success? <==> !Text.IsBlank(email) && !Text.IsBlank(password)
    ensures Text.IsBlank(email) ==> r == Failure("Email is required")
    ensures !Text.IsBlank(email) && Text.IsBlank(password) ==> r == Failure("Password is required")
    ensures r.Success? ==> r.value == Credentials(email, password)
  {
    if Text.IsBlank(email) then Failure("Email is required")
    else if Text.IsBlank(password) then Failure("Password is required")
    else Success(Credentials(email, password))
  }

  /** The effect on the signed-in user: no navigation without one, Admin for
      an ADMIN, Home for anyone else. */
  function Redirect(user: Option<MockDb.Role>): (r: Option<Navigation.Route>)
    ensures r.None? <==> user.None?
    ensures r == Some(Navigation.Admin) <==> user == Some(MockDb.Admin)
    ensures r.Some? ==> r.value == Navigation.Admin || r.value == Navigation.Home
  {
    if user.None? then None else Some(Navigation.RoleHome(user.value))
  }

  /** Round trip across the two pages: once the sign-up page's payload has
      been registered, typing the same e-mail and password here reaches the
      mock backend whenever the password is not blank, and its `login` answers
      with the new resident under the trimmed name. A password of six spaces
      passes the sign-up page but is refused here as missing. */
  lemma SignUpThenSignIn(f: RegisterPage.Form, db: MockDb.Db, newId: string)
    requires RegisterPage.Submit(f).Success?
    requires var p := RegisterPage.Submit(f).value;
             Auth.Register(db, p.name, p.email, p.password, RegisterPage.VehicleRecord(p.vehicle), newId).result.Success?
    ensures !Text.IsBlank(f.password) ==> Submit(f.email, f.password) == Success(Credentials(f.email, f.password))
    ensures Text.IsBlank(f.password) ==> Submit(f.email, f.password) == Failure("Password is required")
    ensures var p := RegisterPage.Submit(f).value;
            var db2 := Auth.Register(db, p.name, p.email, p.password, RegisterPage.VehicleRecord(p.vehicle), newId).db;
            Auth.Login(db2.users, f.email, f.password) == Success(Auth.Session(MockDb.Resident, newId, Text.Trim(f.name)))
  {
    var p := RegisterPage.Submit(f).value;
    Text.TrimIdempotent(f.email);
    Text.TrimIdempotent(f.name);
    assert Auth.NormalizeEmail(f.email) == Auth.NormalizeEmail(p.email);
    Auth.RegisterThenLogin(db, p.name, p.email, p.password, RegisterPage.VehicleRecord(p.vehicle), newId, f.email);
  }

  /** Six spaces make a password the sign-up page accepts and this page
      refuses as missing. */
  lemma BlankPasswordExample()
    ensures RegisterPage.Validate(RegisterPage.Form("Ann", "ann@example.com", "      ", "      ", RegisterPage.NoVehicle, "")).None?
    ensures Submit("ann@example.com", "      ") == Failure("Password is required")
  {
    RegisterPage.SampleFilled();
    SixSpacesBlank();
    SixSpacesLength();
  }

  lemma SixSpacesBlank()
    ensures Text.IsBlank("      ")
  {
    assert Text.AllSpace("      ");
    Text.BlankIffAllSpace("      ");
  }

  lemma SixSpacesLength()
    ensures Text.Utf16Length("      ") == 6
  {
    Text.Utf16LengthBmp("      ");
  }
}
