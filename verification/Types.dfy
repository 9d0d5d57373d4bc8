// Values and attributes of the IEC 61850 data model that the scheduler reads
// and writes.
module Types {
  datatype Option<+T> = None | Some(value: T)

  /** SchdSt.stVal (table 8 of IEC 61850-90-10). `Invalid` stands for any stored value outside 1..4. */
  datatype ScheduleState = Invalid | NotReady | StartTimeRequired | Ready | Running

  /** SchdEnaErr.stVal (table 9 of IEC 61850-90-10). */
  datatype EnablingError =
    | NoError
    | MissingValidNumEntr
    | MissingValidSchdIntv
    | MissingValidScheduleValues
    | UnconsistentValuesCdc
    | MissingValidStrTm
    | OtherError

  datatype TargetType = UnknownTarget | INS | SPS | ENS | MV

  datatype Quality = GoodQ | InvalidQ

  /** A float is opaque apart from being NaN or a number. */
  datatype Float = NaN | Num(r: real)

  datatype MmsValue = BoolVal(b: bool) | FloatVal(f: Float) | IntVal(i: int)

  /** The setCal attribute of a StrTm object. */
  datatype SetCal = SetCal(occ: int, occType: int, occPer: int, weekDay: int, month: int,
                           day: int, hr: int, mn: int)

  /** A StrTm data object; either attribute can be missing from the model. */
  datatype StrTm = StrTm(name: string, setTm: Option<nat>, setCal: Option<SetCal>)

  /** A ValASG/ValENG/ValING/ValSPG data object; None when the value attribute is missing. */
  datatype ValueObj = ValueObj(name: string, value: Option<MmsValue>)

  /** What a client is told about a write. */
  datatype WriteResult = Accepted | ValueInvalid | AccessDenied

  predicate IsNaN(v: MmsValue) {
    v.FloatVal? && v.f.NaN?
  }
}
