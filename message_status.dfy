/**
 * The one-byte status code carried by transport messages (`glass_transport::message::Status`).
 * Seven codes are reserved for named variants; every other byte is an application code.
 */
module MessageStatus {
  import opened Wrappers

  newtype u8 = x: int | 0 <= x < 256

  datatype Status =
    | Success
    | Internal
    | Protocol
    | Unknown
    | NoSuchService
    | NoSuchMethod
    | BadRequest
    | Custom(code: u8)

  /** The explicit discriminants of the `#[repr(u8)]` declaration, for the named variants. */
  function Discriminant(s: Status): u8
    requires !s.Custom?
  {
    match s
    case Success => 0
    case Internal => 1
    case Protocol => 2
    case Unknown => 3
    case NoSuchService => 10
    case NoSuchMethod => 11
    case BadRequest => 20
  }

  /** The codes that the declaration gives to a named variant. */
  predicate IsReserved(v: u8)
  {
    v in {0, 1, 2, 3, 10, 11, 20}
  }

  /** `TryFrom<u8> for Status`: the error type exists but no byte produces it. */
  function TryFromU8(v: u8): (r: Result<Status, string>)
    ensures r.Ok?
    ensures r.value.Custom? <==> !IsReserved(v)
    ensures r.value.Custom? ==> r.value.code == v
    ensures !r.value.Custom? ==> Discriminant(r.value) == v
  {
    match v
    case 0 => Ok(Success)
    case 1 => Ok(Internal)
    case 2 => Ok(Protocol)
    case 3 => Ok(Unknown)
    case 10 => Ok(NoSuchService)
    case 11 => Ok(NoSuchMethod)
    case 20 => Ok(BadRequest)
    case _ => Ok(Custom(v))
  }

  /** The `Custom` arm of `From<Status> for u8`. */
  function CustomToU8(s: Status): (v: u8)
    requires s.Custom?
    ensures TryFromU8(v).value == s || IsReserved(v)
  {
    s.code
  }

  /**
   * Decoding and encoding agree: every named variant decodes from its declared
   * discriminant, and every byte that decodes to `Custom` encodes back to itself.
   */
  lemma RoundTrip(s: Status, v: u8)
    ensures !s.Custom? ==> TryFromU8(Discriminant(s)) == Ok(s)
    ensures !IsReserved(v) ==> CustomToU8(TryFromU8(v).value) == v
    ensures s.Custom? && !IsReserved(s.code) ==> TryFromU8(CustomToU8(s)) == Ok(s)
  {
    match s
    case Success =>
    case Internal =>
    case Protocol =>
    case Unknown =>
    case NoSuchService =>
    case NoSuchMethod =>
    case BadRequest =>
    case Custom(_) =>
  }
}
