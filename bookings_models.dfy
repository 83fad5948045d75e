/** The `Appointment` record: who booked which slot key of which organization on
    which date, its status, and the time it was last saved. */
module BookingsModels {
  import opened Clock

  /** The status column holds one of these four words. */
  datatype Status = Booked | Cancelled | Completed | Missed

  /** The word stored for each status. */
  function StatusText(st: Status): string {
    match st
    case Booked => "Booked"
    case Cancelled => "Cancelled"
    case Completed => "Completed"
    case Missed => "Missed"
  }

  /** A new appointment's status when none is given. */
  const DefaultStatus: Status := Booked

  const NameMaxLength: nat := 100
  const TimeSlotMaxLength: nat := 20
  const PhoneMaxLength: nat := 15
  const StatusMaxLength: nat := 20

  /** One row of the appointment table. Dates are day numbers; `updatedAt` is the
      clock reading of the row's last save. */
  datatype Appointment = Appointment(
    id: nat,
    user: nat,
    org: nat,
    name: string,
    date: int,
    timeSlot: string,
    phone: string,
    status: Status,
    updatedAt: int)

  /** A row created at time `now` carries the given fields, the `Booked` status
      and `now` as its last-save time. */
  function NewAppointment(id: nat, user: nat, org: nat, name: string, date: int, slot: string, phone: string, now: int): (a: Appointment)
    ensures a.status == DefaultStatus && a.updatedAt == now
    ensures a.id == id && a.user == user && a.org == org && a.date == date
    ensures a.name == name && a.timeSlot == slot && a.phone == phone
  {
    Appointment(id, user, org, name, date, slot, phone, Booked, now)
  }

  /** Saving a row with a new status refreshes its last-save time. */
  function WithStatus(a: Appointment, st: Status, now: int): (b: Appointment)
    ensures b.status == st && b.updatedAt == now && SameBooking(a, b)
  {
    a.(status := st, updatedAt := now)
  }

  /** The two rows describe the same booking: everything but the status and the
      save time agrees. */
  predicate SameBooking(a: Appointment, b: Appointment) {
    a.id == b.id && a.user == b.user && a.org == b.org && a.name == b.name
    && a.date == b.date && a.timeSlot == b.timeSlot && a.phone == b.phone
  }

  /** The text columns are within their declared lengths. */
  predicate FitsColumns(a: Appointment) {
    |a.name| <= NameMaxLength && |a.timeSlot| <= TimeSlotMaxLength
    && |a.phone| <= PhoneMaxLength && |StatusText(a.status)| <= StatusMaxLength
  }

  /** Every status word fits its column, and distinct statuses are stored as
      distinct words. */
  lemma StatusTextFits(st: Status, st2: Status)
    ensures |StatusText(st)| <= StatusMaxLength
    ensures StatusText(st) == StatusText(st2) ==> st == st2
  {
    if st != st2 {
      var a, b := StatusText(st), StatusText(st2);
      assert a[0] != b[0] || a[1] != b[1] || |a| != |b|;
    }
  }

  /** Every generated slot key fits the 20-character `time_slot` column. */
  lemma SlotKeyFits(a: int, b: int)
    requires IsMinuteOfDay(a) && IsMinuteOfDay(b)
    ensures |SlotKey(a, b)| <= TimeSlotMaxLength
  {
  }

  /** A status change keeps a row within its columns. */
  lemma WithStatusFits(a: Appointment, st: Status, now: int)
    requires FitsColumns(a)
    ensures FitsColumns(WithStatus(a, st, now))
  {
    StatusTextFits(st, st);
  }
}
