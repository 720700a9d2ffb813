/** The four record kinds the clinic persists. Every field is the string the UI stored. */
module Records {

  datatype Department = Department(id: string, name: string)

  /** `slots` is the doctor's fixed daily offering of time-of-day strings. */
  datatype Doctor = Doctor(id: string, name: string, departmentId: string, slots: seq<string>)

  /**
   * A registered patient. `name` and `address` are derived from the other fields when
   * the record is built; `age` and `gender` keep the raw text of their inputs.
   */
  datatype Patient = Patient(
    id: string,
    firstName: string,
    lastName: string,
    name: string,
    age: string,
    gender: string,
    contact: string,
    email: string,
    address: string,
    city: string,
    state: string,
    pincode: string,
    bloodGroup: string,
    createdAt: string)

  datatype Appointment = Appointment(
    id: string,
    patientId: string,
    departmentId: string,
    doctorId: string,
    date: string,
    time: string,
    createdAt: string)

  /** One element of a persisted JSON array. */
  datatype Record =
    | DepartmentRecord(department: Department)
    | DoctorRecord(doctor: Doctor)
    | PatientRecord(patient: Patient)
    | AppointmentRecord(appointment: Appointment)
}
