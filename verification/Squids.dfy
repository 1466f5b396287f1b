/** Server incarnations, and the identifiers that tell two incarnations of one address apart. */
module Squids {
  import opened Wrappers
  import opened Words

  type Uuid = u: seq<byte> | |u| == 16 witness seq(16, _ => 0)

  /**
   The text of a resource's UUID. The library's formatter writes every UUID in one canonical
   spelling, which its parser reads back; the parser also reads other spellings (upper case,
   braces, a URN prefix, no dashes), and refuses the rest.
   */
  datatype UuidText = Canonical(uuid: Uuid) | OtherSpelling(text: string, parsed: Option<Uuid>)

  function ParseUuid(t: UuidText): Option<Uuid>
  {
    match t
    case Canonical(u) => Some(u)
    case OtherSpelling(_, parsed) => parsed
  }

  function FormatUuid(u: Uuid): UuidText
  {
    Canonical(u)
  }

  datatype Squid = Squid(resourceAddress: string, creationTimeMillis: int64, resourceUuid: UuidText)
}
