/**
 Shared vocabulary of the kinetic-coefficient scraper: optional values, the
 errors the service raises, and results that carry either a value or one of
 those errors.
 */
module Common {

  /** An 8-bit byte of an upstream response body. */
  newtype byte = x: int | 0 <= x < 256

  datatype Option<+T> = None | Some(value: T)

  /**
   The failures the service can end in. The first two are the `ValueError`s
   it raises on purpose; the last two are the `KeyError` and `IndexError` that
   escape from the reference-link lookup of a solution page.
   */
  datatype Error =
    | InvalidIdentifier(identifier: string)
    | MonomerNotFound(monomer: string)
    | ReferenceWithoutHref
    | NoReferenceLink

  datatype Result<+T> = Ok(value: T) | Err(error: Error)
}
