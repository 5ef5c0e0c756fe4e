/** Medium-changer element addresses, shared by the kernel module and the userspace tools. */
module Elements {
  import opened Common

  const DRIVE_BASE := 1000
  const IE_BASE := 2000
  /** Catalog slot id of the first mailslot. */
  const MAILSLOT_OFFSET := 100

  const MAX_DRIVES := 8
  const MAX_SLOTS := 256
  const MAX_MAILSLOTS := 4

  datatype MediumLocation = DataSlot(slot: int) | Drive(drive: int) | MailSlot(mail: int)

  /** `MediumLocation::from_element` as written: its first test already covers every drive address. */
  function FromElement(elem: int): Option<MediumLocation> {
    if 0 <= elem < IE_BASE then Some(DataSlot(elem))
    else if DRIVE_BASE <= elem < IE_BASE then Some(Drive(elem - DRIVE_BASE))
    else if IE_BASE <= elem then Some(MailSlot(MAILSLOT_OFFSET + (elem - IE_BASE)))
    else None
  }

  /** The decoder its comments describe: data slots end where the drive addresses begin. */
  function FromElementAsMeant(elem: int): Option<MediumLocation> {
    if 0 <= elem < DRIVE_BASE then Some(DataSlot(elem))
    else if DRIVE_BASE <= elem < IE_BASE then Some(Drive(elem - DRIVE_BASE))
    else if IE_BASE <= elem then Some(MailSlot(MAILSLOT_OFFSET + (elem - IE_BASE)))
    else None
  }

  function ToElement(loc: MediumLocation): int {
    match loc
    case DataSlot(s) => s
    case Drive(d) => DRIVE_BASE + d
    case MailSlot(m) => IE_BASE + (m - MAILSLOT_OFFSET)
  }

  /** Encoding inverts both decoders wherever they decode. */
  lemma EncodeInvertsDecode(elem: int)
    ensures FromElement(elem).Some? <==> 0 <= elem
    ensures FromElement(elem).Some? ==> ToElement(FromElement(elem).value) == elem
    ensures FromElementAsMeant(elem).Some? ==> ToElement(FromElementAsMeant(elem).value) == elem
  {
  }

  /**
   * Decoding inverts encoding as written exactly off the drives: no drive location is ever
   * decoded, and the decoder as meant recovers every location of a real changer.
   */
  lemma DecodeInvertsEncodeIff(loc: MediumLocation)
    ensures FromElement(ToElement(loc)) == Some(loc)
       <==> match loc
            case DataSlot(s) => 0 <= s < IE_BASE
            case Drive(_) => false
            case MailSlot(m) => MAILSLOT_OFFSET <= m
    ensures FromElementAsMeant(ToElement(loc)) == Some(loc)
       <==> match loc
            case DataSlot(s) => 0 <= s < DRIVE_BASE
            case Drive(d) => 0 <= d < IE_BASE - DRIVE_BASE
            case MailSlot(m) => MAILSLOT_OFFSET <= m
  {
  }
}
