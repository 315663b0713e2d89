/** The errors of core/src/error.rs that the modelled operations report. */
module Errors {
  datatype NtfsError =
    | BadRunlist(detail: string)
    | BadAttribute(detail: string)
    | BadCompression(detail: string)
    | BadUpdateSequence(detail: string)
    | FixupMismatch(sector: nat, expected: nat, found: nat)
    | TooLarge(bytes: nat)
    | TooShort(need: nat, got: nat)
    | Io
}
