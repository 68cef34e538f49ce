/** The names that tools/ota_send.py gives to the numbers in replies and log entries, and that they
    name what the firmware means. */
module HostNames {
  import opened Bytes
  import opened Image
  import opened Transfer
  import opened Boot
  import J = Journal

  /** `CODES` */
  function CodeName(code: byte): string {
    match code
    case 0 => "OK"
    case 1 => "GAP"
    case 2 => "NOT_STARTED"
    case 3 => "BAD_SIZE"
    case 4 => "SLOT_BUSY"
    case 5 => "VERSION_LOW"
    case 6 => "FLASH"
    case 7 => "INCOMPLETE"
    case 8 => "BAD_MAGIC"
    case 9 => "BAD_HEADER"
    case 10 => "WRONG_SLOT"
    case 11 => "BAD_CRC"
    case 12 => "BAD_SIGNATURE"
    case 13 => "BAD_VECTORS"
    case 14 => "JOURNAL"
    case 15 => "TIMEOUT"
    case 16 => "SEQUENCE"
    case _ => "?"
  }

  /** `REASONS` */
  function ReasonName(code: byte): string {
    match code
    case 0 => "ACTIVE"
    case 1 => "PENDING_TRIAL"
    case 2 => "FALLBACK"
    case 3 => "ROLLBACK"
    case 4 => "SAFE_MODE"
    case _ => "none"
  }

  /** `RESULTS` */
  function LoggedResult(code: byte): string {
    match code
    case 0 => "OK"
    case 1 => "BAD_MAGIC"
    case 2 => "BAD_HEADER"
    case 3 => "BAD_SIZE"
    case 4 => "WRONG_SLOT"
    case 5 => "BAD_CRC"
    case 6 => "BAD_SIGNATURE"
    case 7 => "BAD_VECTORS"
    case _ => "?"
  }

  /** `SLOTS` */
  function SlotName(slot: byte): string {
    match slot
    case 0 => "A"
    case 1 => "B"
    case 2 => "SAFE"
    case _ => "none"
  }

  /** `image_result_str` of the firmware. */
  function ResultName(r: ImageResult): string {
    match r
    case ImageOk => "OK"
    case BadMagic => "BAD_MAGIC"
    case BadHeader => "BAD_HEADER"
    case BadSize => "BAD_SIZE"
    case WrongSlot => "WRONG_SLOT"
    case BadCrc => "BAD_CRC"
    case BadSignature => "BAD_SIGNATURE"
    case BadVectors => "BAD_VECTORS"
  }

  /** The result of a validation bears the same name on the console, in a verdict and in the boot
      log. */
  lemma ResultsAgree(r: ImageResult)
    ensures CodeName(MapResult(r)) == ResultName(r) == LoggedResult(ResultCode(r))
  {
  }
}
