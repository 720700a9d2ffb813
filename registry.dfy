/**
 * Patient registration and the two patient edit dialogs: their validation chains
 * and the records they build.
 */
module Registry {
  import opened Wrappers
  import opened Seqs
  import opened Text
  import opened Validate
  import opened Records
  import opened Storage

  /** The raw values of the registration form (and of the detailed edit dialog). */
  datatype PatientForm = PatientForm(
    firstName: string,
    lastName: string,
    age: string,
    gender: string,
    address: string,
    city: string,
    state: string,
    pincode: string,
    bloodGroup: string,
    contact: string,
    email: string)

  /** The raw values of the legacy edit dialog (single name and address fields). */
  datatype LegacyForm = LegacyForm(
    name: string, age: string, gender: string, contact: string, email: string, address: string)

  datatype PatientRejection =
    | InvalidName
    | InvalidAge
    | MissingGender
    | InvalidContact
    | InvalidEmail
    | InvalidPincode
    | MissingBloodGroup
    | PatientNotFound

  /** `/^\d{6}$/`. */
  predicate SixDigits(s: string)
  {
    |s| == 6 && forall k :: 0 <= k < 6 ==> IsDigit(s[k])
  }

  /**
   * The values the handlers read from the form: every text field trimmed, while
   * age and gender are taken as they are.
   */
  function ReadForm(raw: PatientForm): PatientForm
  {
    raw.(firstName := Trim(raw.firstName), lastName := Trim(raw.lastName), address := Trim(raw.address),
         city := Trim(raw.city), state := Trim(raw.state), pincode := Trim(raw.pincode),
         bloodGroup := Trim(raw.bloodGroup), contact := Trim(raw.contact), email := Trim(raw.email))
  }

  /** Values already read are read back unchanged: every text field of the result is trimmed. */
  lemma ReadFormIdempotent(raw: PatientForm)
    ensures ReadForm(ReadForm(raw)) == ReadForm(raw)
  {
    TrimIdempotent(raw.firstName);
    TrimIdempotent(raw.lastName);
    TrimIdempotent(raw.address);
    TrimIdempotent(raw.city);
    TrimIdempotent(raw.state);
    TrimIdempotent(raw.pincode);
    TrimIdempotent(raw.bloodGroup);
    TrimIdempotent(raw.contact);
    TrimIdempotent(raw.email);
  }

  /** The validation chain of the form, in its order, on the values as read. */
  function PatientFormCheck(f: PatientForm): (r: Option<PatientRejection>)
    ensures r.None? <==>
      Name(f.firstName) && Age(f.age) && Gender(f.gender) && Contact(f.contact)
      && Email(f.email) && SixDigits(f.pincode) && f.bloodGroup != ""
  {
    if !Name(f.firstName) then Some(InvalidName)
    else if !Age(f.age) then Some(InvalidAge)
    else if !Gender(f.gender) then Some(MissingGender)
    else if !Contact(f.contact) then Some(InvalidContact)
    else if !Email(f.email) then Some(InvalidEmail)
    else if !SixDigits(f.pincode) then Some(InvalidPincode)
    else if f.bloodGroup == "" then Some(MissingBloodGroup)
    else None
  }

  /** `${address}, ${city}, ${state} - ${pincode}`. */
  function FullAddress(f: PatientForm): string
  {
    f.address + ", " + f.city + ", " + f.state + " - " + f.pincode
  }

  /** The record registration appends; its name is `${firstName} ${lastName}`, not trimmed again. */
  function NewPatient(f: PatientForm, id: string, createdAt: string): Patient
  {
    Patient(id, f.firstName, f.lastName, f.firstName + " " + f.lastName, f.age, f.gender, f.contact,
            f.email, FullAddress(f), f.city, f.state, f.pincode, f.bloodGroup, createdAt)
  }

  /** The detailed edit: every form field replaced, the name trimmed, id and creation time kept. */
  function EditedPatient(p: Patient, f: PatientForm): Patient
  {
    var built := NewPatient(f, p.id, p.createdAt);
    built.(name := Trim(built.name))
  }

  /**
   * A record built from an accepted form: every validator accepts its stored fields,
   * and the text fields it stores are already trimmed.
   */
  lemma AcceptedFormStoresValidFields(raw: PatientForm, id: string, createdAt: string)
    requires PatientFormCheck(ReadForm(raw)).None?
    ensures var p := NewPatient(ReadForm(raw), id, createdAt);
      && Name(p.firstName) && Age(p.age) && Gender(p.gender) && Contact(p.contact) && Email(p.email)
      && SixDigits(p.pincode) && p.bloodGroup != "" && |p.contact| == 10
      && p.id == id && p.createdAt == createdAt
      && Trim(p.firstName) == p.firstName && Trim(p.contact) == p.contact && Trim(p.email) == p.email
      && Trim(p.city) == p.city && Trim(p.bloodGroup) == p.bloodGroup
      && Trim(p.lastName) == p.lastName && Trim(p.state) == p.state
  {
    var f := ReadForm(raw);
    var p := NewPatient(f, id, createdAt);
    assert Name(f.firstName) && Age(f.age) && Gender(f.gender) && Contact(f.contact)
      && Email(f.email) && SixDigits(f.pincode) && f.bloodGroup != "";
    assert p.firstName == f.firstName && p.lastName == f.lastName && p.age == f.age && p.gender == f.gender
      && p.contact == f.contact && p.email == f.email && p.city == f.city && p.state == f.state
      && p.pincode == f.pincode && p.bloodGroup == f.bloodGroup;
    TrimIdempotent(raw.firstName);
    TrimIdempotent(raw.lastName);
    TrimIdempotent(raw.state);
    TrimIdempotent(raw.contact);
    TrimIdempotent(raw.email);
    TrimIdempotent(raw.city);
    TrimIdempotent(raw.bloodGroup);
    ValidatorsSeeTrimmedText(raw.contact);
  }

  /** `"Asha ".trim()` is `"Asha"`. */
  lemma TrimTrailingSpace()
    ensures Trim("Asha ") == "Asha"
  {
    var s := "Asha ";
    assert TrimStart(s) == s;
    assert s[..4] == "Asha";
    assert TrimEnd(s) == TrimEnd("Asha");
    TrimUnchanged("Asha");
  }

  /**
   * With an empty last name, registration stores "Asha " (trailing space) while the
   * detailed edit stores "Asha": the two paths derive the name differently.
   */
  lemma NameDerivationDiffers(f: PatientForm)
    requires f.firstName == "Asha" && f.lastName == ""
    ensures NewPatient(f, "p_1", "").name == "Asha "
    ensures EditedPatient(NewPatient(f, "p_1", ""), f).name == "Asha"
  {
    var n := f.firstName + " " + f.lastName;
    assert n == "Asha ";
    assert NewPatient(f, "p_1", "").name == n;
    TrimTrailingSpace();
    assert EditedPatient(NewPatient(f, "p_1", ""), f).name == Trim(n);
  }

  /** The detailed edit keeps what identifies the record. */
  lemma EditedKeepsIdentity(p: Patient, f: PatientForm)
    ensures EditedPatient(p, f).id == p.id && EditedPatient(p, f).createdAt == p.createdAt
  {
  }

  function PatientId(p: Patient): string
  {
    p.id
  }

  /** The detailed edit dialog: validation first, then the lookup of the patient. */
  function PatientEditCheck(patients: seq<Patient>, id: string, f: PatientForm): (r: Option<PatientRejection>)
    ensures r.None? <==> PatientFormCheck(f).None? && exists j :: 0 <= j < |patients| && patients[j].id == id
    ensures r.None? ==> FirstIndex(patients, id, PatientId).Some?
  {
    if PatientFormCheck(f).Some? then PatientFormCheck(f)
    else if FirstIndex(patients, id, PatientId).None? then Some(PatientNotFound)
    else (assert PatientId(patients[FirstIndex(patients, id, PatientId).value]) == id; None)
  }

  /** `pts[idx] = {...pts[idx], ...}`: the entry at `k` is edited, every other entry is kept. */
  function ApplyPatientEdit(patients: seq<Patient>, k: nat, f: PatientForm): (r: seq<Patient>)
    requires k < |patients|
    ensures |r| == |patients|
    ensures forall j :: 0 <= j < |patients| && j != k ==> r[j] == patients[j]
    ensures r[k] == EditedPatient(patients[k], f)
    ensures r[k].id == patients[k].id && r[k].createdAt == patients[k].createdAt
  {
    EditedKeepsIdentity(patients[k], f);
    ReplaceAt(patients, k, EditedPatient(patients[k], f))
  }

  /** The legacy edit dialog's chain; its values are validated but stored untrimmed. */
  function LegacyEditCheck(patients: seq<Patient>, id: string, f: LegacyForm): (r: Option<PatientRejection>)
    ensures r.None? <==>
      Name(f.name) && Age(f.age) && Gender(f.gender) && Contact(f.contact) && Email(f.email)
      && exists j :: 0 <= j < |patients| && patients[j].id == id
    ensures r.None? ==> FirstIndex(patients, id, PatientId).Some?
  {
    if !Name(f.name) then Some(InvalidName)
    else if !Age(f.age) then Some(InvalidAge)
    else if !Gender(f.gender) then Some(MissingGender)
    else if !Contact(f.contact) then Some(InvalidContact)
    else if !Email(f.email) then Some(InvalidEmail)
    else if FirstIndex(patients, id, PatientId).None? then Some(PatientNotFound)
    else (assert PatientId(patients[FirstIndex(patients, id, PatientId).value]) == id; None)
  }

  /** `{ ...pts[idx], name, age, gender, contact, email, address }`: the other fields are kept. */
  function LegacyEdited(p: Patient, f: LegacyForm): Patient
  {
    p.(name := f.name, age := f.age, gender := f.gender, contact := f.contact, email := f.email,
       address := f.address)
  }

  /** The legacy edit keeps the structured fields (first and last name, city, state, pincode, blood group). */
  lemma LegacyEditKeepsStructuredFields(p: Patient, f: LegacyForm)
    ensures var q := LegacyEdited(p, f);
      && q.id == p.id && q.firstName == p.firstName && q.lastName == p.lastName && q.city == p.city
      && q.state == p.state && q.pincode == p.pincode && q.bloodGroup == p.bloodGroup
      && q.createdAt == p.createdAt
      && q.name == f.name && q.address == f.address
  {
  }
}
