/**
  An appointment binds a doctor id and a patient id to an optional, mutable
  remark.  The remark type is fixed to text (`Option<string>`, with `None`
  standing for `null`); the id type is a parameter whose equality is Dafny's
  `==` and whose textual form is supplied by the caller as `show`.
 */
module Appointments {
  import opened Wrappers

  /** The separator `appendRemark` puts between the old and the new remark: a blank line. */
  const Separator: string := "\n\n"

  /** The text shown in place of an absent remark. */
  const NoRemarks: string := "No remarks"

  /** The fixed pieces of the display format, in the order they appear. */
  const DoctorLabel: string := "Appointment[Doctor ID: "
  const PatientLabel: string := ", Patient ID: "
  const RemarkLabel: string := "] : "

  /** How Java's string concatenation renders a possibly-null string operand. */
  function JavaText(x: Option<string>): string
  {
    match x
    case None => "null"
    case Some(s) => s
  }

  /**
    The remark after `appendRemark(newRemark)` on an appointment whose remark
    is `current`: an absent remark is simply set; a present one is kept as the
    prefix, followed by a blank line and the new remark's text (which is
    "null" when the new remark is itself absent).
   */
  function Appended(current: Option<string>, newRemark: Option<string>): (r: Option<string>)
    ensures current.None? ==> r == newRemark
    ensures current.Some? ==> r.Some?
    ensures current.Some? ==>
      var c, t := current.value, JavaText(newRemark);
      && |r.value| == |c| + |Separator| + |t|
      && r.value[..|c|] == c
      && r.value[|c|..|c| + |Separator|] == Separator
      && r.value[|c| + |Separator|..] == t
  {
    match current
    case None => newRemark
    case Some(c) => Some(c + Separator + JavaText(newRemark))
  }

  /**
    Null-aware remark equality: two absent remarks are equal, an absent and a
    present one are not, and two present ones are compared as strings.
   */
  function RemarksEqual(a: Option<string>, b: Option<string>): (r: bool)
    ensures r <==> a == b
  {
    match a
    case None => b.None?
    case Some(s) => b.Some? && s == b.value
  }

  /** The remark as the display format shows it. */
  function DisplayedRemark(remark: Option<string>): string
  {
    match remark
    case None => NoRemarks
    case Some(s) => s
  }

  /**
    The display text of an appointment whose ids render as `d` and `p`:
    the doctor label, `d`, the patient label, `p`, the remark label and the
    remark (or "No remarks"), each piece at its fixed position.
   */
  function Render(d: string, p: string, remark: Option<string>): (s: string)
    ensures
      var a := |DoctorLabel|;
      var b := a + |d|;
      var c := b + |PatientLabel|;
      var e := c + |p|;
      var f := e + |RemarkLabel|;
      && |s| == f + |DisplayedRemark(remark)|
      && s[..a] == DoctorLabel
      && s[a..b] == d
      && s[b..c] == PatientLabel
      && s[c..e] == p
      && s[e..f] == RemarkLabel
      && s[f..] == DisplayedRemark(remark)
  {
    DoctorLabel + d + PatientLabel + p + RemarkLabel + DisplayedRemark(remark)
  }

  /**
    The display format cannot tell an absent remark from the present remark
    "No remarks", and from no other present remark.
   */
  lemma RenderConfusesOnlyNoRemarks(d: string, p: string, s: string)
    ensures Render(d, p, None) == Render(d, p, Some(s)) <==> s == NoRemarks
  {
  }

  /** The given notes joined by blank lines, in order. */
  function Join(notes: seq<string>): string
    requires |notes| > 0
  {
    if |notes| == 1 then notes[0]
    else Join(notes[..|notes| - 1]) + Separator + notes[|notes| - 1]
  }

  /** The remark after calling `appendRemark` with each of `notes`, in order, starting from `start`. */
  function AppendAll(start: Option<string>, notes: seq<string>): Option<string>
  {
    if |notes| == 0 then start
    else Appended(AppendAll(start, notes[..|notes| - 1]), Some(notes[|notes| - 1]))
  }

  /** Appending notes one by one to an absent remark yields the notes joined by blank lines. */
  lemma {:induction false} AppendAllFromAbsent(notes: seq<string>)
    requires |notes| > 0
    ensures AppendAll(None, notes) == Some(Join(notes))
  {
    if |notes| > 1 {
      AppendAllFromAbsent(notes[..|notes| - 1]);
    }
  }

  /** Appending notes one by one to a present remark `r` yields `r` and the notes joined by blank lines. */
  lemma {:induction false} AppendAllFromPresent(r: string, notes: seq<string>)
    ensures AppendAll(Some(r), notes) == Some(Join([r] + notes))
  {
    if |notes| > 0 {
      var n := |notes|;
      AppendAllFromPresent(r, notes[..n - 1]);
      assert ([r] + notes)[..n] == [r] + notes[..n - 1];
      assert ([r] + notes)[n] == notes[n - 1];
    }
  }

  /** Appending never discards text: the remark before any number of appends is a prefix of the remark after. */
  lemma {:induction false} AppendAllKeepsHistory(r: string, notes: seq<string>)
    ensures AppendAll(Some(r), notes).Some?
    ensures r <= AppendAll(Some(r), notes).value
  {
    if |notes| > 0 {
      var n := |notes|;
      AppendAllKeepsHistory(r, notes[..n - 1]);
      var before := AppendAll(Some(r), notes[..n - 1]).value;
      var after := AppendAll(Some(r), notes).value;
      assert after[..|before|] == before;
      assert after[..|r|] == before[..|r|];
    }
  }

  /**
    An appointment between a doctor and a patient.  The ids are fixed at
    construction; the remark is the only state, changed by `AppendRemark`
    and `ReplaceRemark`.
   */
  class Appointment<Id(==)> {
    const doctorId: Id
    const patientId: Id
    var remark: Option<string>

    /** Binds the two ids and the initial remark; the getters return exactly these. */
    constructor (doctorId: Id, patientId: Id, remark: Option<string>)
      ensures GetDoctorId() == doctorId
      ensures GetPatientId() == patientId
      ensures GetRemark() == remark
    {
      this.doctorId := doctorId;
      this.patientId := patientId;
      this.remark := remark;
    }

    function GetPatientId(): Id
    {
      patientId
    }

    function GetDoctorId(): Id
    {
      doctorId
    }

    function GetRemark(): Option<string>
      reads this
    {
      remark
    }

    /** Appends `newRemark` after a blank line, or sets it when there is no remark yet. */
    method AppendRemark(newRemark: Option<string>)
      modifies this`remark
      ensures remark == Appended(old(remark), newRemark)
    {
      if remark == None {
        remark := newRemark;
      } else {
        remark := Some(remark.value + Separator + JavaText(newRemark));
      }
    }

    /** Overwrites the remark, discarding whatever was there. */
    method ReplaceRemark(newRemark: Option<string>)
      modifies this`remark
      ensures remark == newRemark
    {
      remark := newRemark;
    }

    /**
      Equality against a possibly-null appointment: the same object is equal,
      null is not, and otherwise the ids and the remarks (null-aware) decide.
     */
    function Equals(other: Appointment?<Id>): (r: bool)
      reads this, other
      ensures r <==>
        && other != null
        && doctorId == other.doctorId
        && patientId == other.patientId
        && remark == other.remark
    {
      if this == other then true
      else if other == null then false
      else (doctorId == other.doctorId
        && patientId == other.patientId
        && RemarksEqual(remark, other.remark))
    }

    /** The display text, with the ids rendered by `show`. */
    function ToString(show: Id -> string): (s: string)
      reads this
      ensures s == Render(show(doctorId), show(patientId), remark)
    {
      DoctorLabel + show(doctorId) + PatientLabel + show(patientId) + RemarkLabel
        + (if remark != None then remark.value else NoRemarks)
    }
  }

  lemma EqualsReflexive<Id>(a: Appointment<Id>)
    ensures a.Equals(a)
  {
  }

  lemma EqualsSymmetric<Id>(a: Appointment<Id>, b: Appointment<Id>)
    ensures a.Equals(b) <==> b.Equals(a)
  {
  }

  lemma EqualsTransitive<Id>(a: Appointment<Id>, b: Appointment<Id>, c: Appointment<Id>)
    requires a.Equals(b) && b.Equals(c)
    ensures a.Equals(c)
  {
  }

  lemma EqualsNull<Id>(a: Appointment<Id>)
    ensures !a.Equals(null)
  {
  }

  /** Equal appointments display alike, whatever the rendering of the ids. */
  lemma EqualsDisplaysAlike<Id>(a: Appointment<Id>, b: Appointment<Id>, show: Id -> string)
    requires a.Equals(b)
    ensures a.ToString(show) == b.ToString(show)
  {
  }

  /** An appointment without a remark displays "No remarks". */
  method ExampleDisplay()
  {
    var a := new Appointment<string>("D1", "P1", None);
    assert a.GetDoctorId() == "D1" && a.GetPatientId() == "P1";
    assert a.ToString(s => s) == "Appointment[Doctor ID: D1, Patient ID: P1] : No remarks";
  }

  /** Appending sets an absent remark, then joins with a blank line. */
  method ExampleAppend()
  {
    var a := new Appointment<string>("D1", "P1", None);
    a.AppendRemark(Some("Initial visit"));
    assert a.GetRemark() == Some("Initial visit");
    a.AppendRemark(Some("Follow-up needed"));
    assert "Initial visit" + Separator + "Follow-up needed" == "Initial visit\n\nFollow-up needed";
    assert a.GetRemark() == Some("Initial visit\n\nFollow-up needed");
  }

  /** Replacing twice with one value is the same as replacing once. */
  method ExampleReplace()
  {
    var a := new Appointment<string>("D1", "P1", Some("old"));
    a.ReplaceRemark(Some("x"));
    a.ReplaceRemark(Some("x"));
    assert a.GetRemark() == Some("x");
    a.ReplaceRemark(None);
    assert a.GetRemark() == None;
  }

  /** Equality: both-absent remarks match; an empty remark or a different id breaks it. */
  method ExampleEquality()
  {
    var a := new Appointment<string>("D1", "P1", None);
    var b := new Appointment<string>("D1", "P1", None);
    assert a.Equals(b);
    var c := new Appointment<string>("D1", "P1", Some(""));
    assert !c.Equals(a);
    var d := new Appointment<string>("D2", "P1", None);
    assert !d.Equals(a);
  }
}
