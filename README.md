# Appointment record

A Dafny model of the `Appointment` record in
`src/main/java/seedu/address/model/person/Appointment.java`. An appointment binds a
doctor id and a patient id to an optional free-text remark. The ids are fixed when
the appointment is created. The remark can be appended to or replaced in place.
Equality is structural and treats absent remarks as null-aware. The display text
has a fixed format.

Modelling choices:
- The class `Appointments.Appointment<Id>` has `const` fields `doctorId` and `patientId`
  and one mutable field, `remark: Option<string>`. `None` stands for Java's `null`.
- The remark type is fixed to text. The Java class casts the result of `appendRemark`
  back to the generic remark type, and that cast only makes sense for strings.
- The id type stays a type parameter. Dafny's `==` stands for the ids' `equals`.
  Their `toString` is passed to `ToString` as a function `show`.
- `appendRemark` with a `null` new remark adds the text `null`, as Java string
  concatenation does (`JavaText`).
- `equals(Object)` becomes `Equals(other: Appointment?<Id>)`. A null argument is unequal,
  and the same object is equal.
- The state-changing methods say exactly what the new remark is, in terms of the old one.
  Their `modifies this`remark` frame shows that nothing else changes. Repeated appends
  are described by a value-level fold, `AppendAll`, and lemmas prove what it yields.

## Model

| member | source | states |
|---|---|---|
| `Appointments.Appointment.constructor` | src/main/java/seedu/address/model/person/Appointment.java:25-56 | Right after construction, `GetDoctorId`, `GetPatientId` and `GetRemark` return exactly the constructor's arguments. |
| `Appointments.Appointment.AppendRemark` | src/main/java/seedu/address/model/person/Appointment.java:64-71 | The new remark is `Appended(old remark, newRemark)`. Only `remark` may change, so both ids stay the same. |
| `Appointments.Appointment.ReplaceRemark` | src/main/java/seedu/address/model/person/Appointment.java:79-81 | The new remark is exactly `newRemark`, whatever it was before, including absent. So replacing twice with one value is the same as replacing once. Only `remark` changes. |
| `Appointments.Appended` | src/main/java/seedu/address/model/person/Appointment.java:65-71 | An absent remark becomes exactly the new remark. A present remark `c` becomes a present remark of length `|c| + 2 + |t|`: `c` first, then the two-newline separator, then the new remark's text `t`, which is "null" for an absent new remark. |
| `Appointments.AppendAllKeepsHistory` | src/main/java/seedu/address/model/person/Appointment.java:58-71 | Any number of appends to a present remark leaves it present, with the original remark as a prefix: appending never discards text. |
| `Appointments.AppendAllFromAbsent` | src/main/java/seedu/address/model/person/Appointment.java:58-71 | Appending a non-empty list of notes one at a time to an absent remark gives the notes joined by blank lines, in order. |
| `Appointments.AppendAllFromPresent` | src/main/java/seedu/address/model/person/Appointment.java:58-71 | Appending notes one at a time to a present remark `r` gives `r` followed by the notes, joined by blank lines. |
| `Appointments.RemarksEqual` | src/main/java/seedu/address/model/person/Appointment.java:103-104 | Null-aware remark comparison holds exactly when the two optional remarks are equal. Two absent remarks are equal. An absent remark never equals a present one, even an empty one. |
| `Appointments.Appointment.Equals` | src/main/java/seedu/address/model/person/Appointment.java:90-105 | Holds exactly when the other appointment is non-null, has the same doctor id and the same patient id, and has the same remark (both absent, or both present and equal). The same-object short-circuit agrees with this. |
| `Appointments.EqualsReflexive` | src/main/java/seedu/address/model/person/Appointment.java:91-93 | Every appointment equals itself. |
| `Appointments.EqualsSymmetric` | src/main/java/seedu/address/model/person/Appointment.java:101-104 | `a.Equals(b)` holds exactly when `b.Equals(a)` does. |
| `Appointments.EqualsTransitive` | src/main/java/seedu/address/model/person/Appointment.java:101-104 | Equality is transitive. |
| `Appointments.EqualsNull` | src/main/java/seedu/address/model/person/Appointment.java:95-97 | No appointment equals null. |
| `Appointments.Render` | src/main/java/seedu/address/model/person/Appointment.java:113-118 | The display text is laid out piece by piece at fixed positions: "Appointment[Doctor ID: ", the doctor id, ", Patient ID: ", the patient id, "] : ", then the remark, or "No remarks" when it is absent. |
| `Appointments.Appointment.ToString` | src/main/java/seedu/address/model/person/Appointment.java:112-118 | The appointment's display text is `Render` of its ids, shown through `show`, and its current remark. |
| `Appointments.RenderConfusesOnlyNoRemarks` | src/main/java/seedu/address/model/person/Appointment.java:114-117 | With the same ids, an absent remark displays exactly like the present remark "No remarks", and like no other present remark. |
| `Appointments.EqualsDisplaysAlike` | src/main/java/seedu/address/model/person/Appointment.java:90-118 | Equal appointments have the same display text for any rendering of the ids. |

`Appointments.ExampleDisplay`, `ExampleAppend`, `ExampleReplace` and `ExampleEquality` state concrete cases as assertions that follow from the
contracts above. For example, appending "Follow-up needed" to "Initial visit" gives
"Initial visit\n\nFollow-up needed". An appointment D1/P1 with no remark displays as
`Appointment[Doctor ID: D1, Patient ID: P1] : No remarks`.

## Left out

- The runtime class check `getClass() != obj.getClass()` and the cast to `Appointment<?, ?>` in `equals`. Dafny's static types make `Equals` compare two appointments with the same id type, and a null argument is modelled as `null`.
- The generic remark type and the unchecked cast in `appendRemark`. The remark is always an optional string.
- The `NullPointerException` that `equals` and `toString` raise when an id is null. Ids are always present values here.
- What arbitrary id types do in `equals` and `toString`. Id equality is Dafny's `==`, and the id rendering is a pure function supplied by the caller.
- `String.format` beyond the fixed `%s` substitutions the display format uses.
