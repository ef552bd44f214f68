/** The crate's error type (src/error/mod.rs), its helper constructors, its
    display texts, and the `From` conversions out of foreign error types. */
module Errors {
  import opened Base

  datatype Error =
    | InvalidArgs(messages: seq<string>)
    | Internal(message: string)
    | NotFound(message: string)

  /** `crate::Result<T>`. */
  type Res<T> = Result<T, Error>

  function InternalError(message: string): (e: Error)
    ensures e.Internal? && e.message == message
  {
    Internal(message)
  }

  function NotFoundError(message: string): (e: Error)
    ensures e.NotFound? && e.message == message
  {
    NotFound(message)
  }

  /** `Error::invalid_args`: a single message. */
  function InvalidArgsError(message: string): (e: Error)
    ensures e.InvalidArgs? && e.messages == [message]
  {
    InvalidArgs([message])
  }

  /** The texts of the `#[error(...)]` attributes. */
  function Display(e: Error): (r: string)
    ensures e.InvalidArgs? ==> r == "invalid arguments"
    ensures !e.InvalidArgs? ==> |e.message| < |r| && r[|r| - |e.message|..] == e.message
  {
    match e
    case InvalidArgs(_) => "invalid arguments"
    case Internal(m) => "internal error: " + m
    case NotFound(m) => "not found error: " + m
  }

  /** The display text tells the kinds apart and carries the message of
      `Internal` and `NotFound` verbatim; only the messages of `InvalidArgs`
      are not shown. */
  lemma DisplayDistinguishes(e1: Error, e2: Error)
    ensures Display(e1) == Display(e2) <==> e1 == e2 || (e1.InvalidArgs? && e2.InvalidArgs?)
  {
    var d1, d2 := Display(e1), Display(e2);
    match (e1, e2)
    case (InvalidArgs(_), InvalidArgs(_)) =>
    case (Internal(m1), Internal(m2)) =>
      if d1 == d2 {
        assert m1 == d1[16..] == d2[16..] == m2;
      }
    case (NotFound(m1), NotFound(m2)) =>
      if d1 == d2 {
        assert m1 == d1[17..] == d2[17..] == m2;
      }
    case (NotFound(_), _) =>
      assert d1[0] != d2[0];
    case (_, NotFound(_)) =>
      assert d1[0] != d2[0];
    case _ =>
      assert d1[2] != d2[2];
  }

  /** Foreign errors the crate converts with `From`: base64 decoding, PKCS#8
      key parsing and Ed25519 signatures (src/error/mod.rs), and the driver's
      `tokio_postgres::Error` (src/db/pool/mod.rs). Each is known here by its
      display text (`err.to_string()`). */
  datatype ForeignError =
    | Base64Decode(text: string)
    | Pkcs8(text: string)
    | Signature(text: string)
    | Postgres(text: string)

  /** Every foreign error becomes `Internal` with the foreign error's text. */
  function FromForeign(f: ForeignError): (e: Error)
    ensures e.Internal? && e.message == f.text
  {
    Internal(f.text)
  }

  /** `tokio_postgres::Error`. */
  type PgError = f: ForeignError | f.Postgres? witness Postgres("")
}
