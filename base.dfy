/** Outcome types shared by every module of the model. */
module Base {

  datatype Option<T> = None | Some(value: T)

  /**
   * The Python exceptions that the modelled code raises or lets escape.
   * The hierarchy matters to the mirror loops: in Python 3, URLError,
   * HTTPError and socket.timeout are all OSError (alias IOError).
   */
  datatype Error =
    | IOError(msg: string)       // OSError raised by the code itself
    | ValueError(msg: string)    // int() of a non-number, a bad unpacking
    | IndexError                 // subscript out of range
    | KeyError                   // missing dictionary key or tag attribute
    | AttributeError             // `.group` or `.text` on a None
    | UrlError                   // urllib.error.URLError: transport failure
    | HttpError(code: int)       // urllib.error.HTTPError, a URLError
    | Timeout                    // socket.timeout
    | Exception(msg: string)     // a bare Exception(...)
    | NameError                  // a local variable read before assignment
    | DecodeError                // binascii.Error from a bad Base64 string
    | TypeError                  // a call with the wrong number of arguments

  datatype Result<T> = Ok(value: T) | Err(error: Error)

  /** What `int()` raises for a string that is not a number. */
  const BadInt: Error := ValueError("invalid literal for int()")

  /** The handler tuple `(URLError, socket.timeout, IOError, ValueError)`. */
  predicate CaughtByMirrorLoop(e: Error) {
    e.IOError? || e.UrlError? || e.HttpError? || e.Timeout? || e.ValueError?
  }

  /**
   * How many of the outcomes 0 .. n-1 succeed before the first failure: the
   * pages a loop gets through before one raises, n when none does.
   */
  function LeadingOks<T>(outcome: nat -> Result<T>, n: nat): (k: nat)
    ensures k <= n
    ensures forall p :: 0 <= p < k ==> outcome(p).Ok?
    ensures k < n ==> outcome(k).Err?
    decreases n
  {
    if n == 0 then 0
    else if LeadingOks(outcome, n - 1) < n - 1 then LeadingOks(outcome, n - 1)
    else if outcome(n - 1).Ok? then n
    else n - 1
  }

  /** Those three facts determine the count: k is it when the outcomes before k succeed and outcome k, if any, fails. */
  lemma LeadingOksIs<T>(outcome: nat -> Result<T>, n: nat, k: nat)
    requires k <= n
    requires forall p :: 0 <= p < k ==> outcome(p).Ok?
    requires k < n ==> outcome(k).Err?
    ensures LeadingOks(outcome, n) == k
  {
  }

  /** Python's `s[i]` for a list of length n, negative indices counting from the end. */
  function PyIndex<T>(s: seq<T>, i: int): (r: Result<T>)
    ensures r.Ok? <==> -|s| <= i < |s|
    ensures r.Ok? ==> r.value == s[if i < 0 then |s| + i else i]
  {
    if 0 <= i < |s| then Ok(s[i])
    else if -|s| <= i < 0 then Ok(s[|s| + i])
    else Err(IndexError)
  }
}
