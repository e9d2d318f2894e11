/** The failures the scraping core can raise, and a Result type carrying
    either a value or one of them. Each constructor stands for the Python
    exception the corresponding code path raises. */
module Errors {

  datatype Error =
    | HttpError(message: string)       // a response with a status code above 399
    | KeyError(key: string)            // a column (or split part) looked up by a label that is absent
    | ValueError(message: string)      // an argument outside the accepted values
    | FormatError(message: string)     // the ValueError str.format raises for a malformed path template
    | IndexError(message: string)      // a list or a positional argument indexed past its end
    | Unmodelled(feature: string)      // a str.format feature on TABLE_XPATH that the model does not follow
    | MissingTableError(message: string) // the scraped page lacks the expected table
    | MaskError(message: string)       // a row filter that is not a plain boolean mask
    | AttributeError(message: string)  // string methods asked of something that is not a column of strings

  datatype Option<+T> = None | Some(value: T)

  datatype Result<+T> = Ok(value: T) | Err(error: Error) {

    predicate IsFailure() {
      Err?
    }

    function PropagateFailure<U>(): Result<U>
      requires Err?
    {
      Err(error)
    }

    function Extract(): T
      requires Ok?
    {
      value
    }
  }

  /** Puts `prefix` in front of a successful string result. */
  function PrefixWith(prefix: string, r: Result<string>): (r': Result<string>)
    ensures r'.Ok? <==> r.Ok?
    ensures r.Err? ==> r' == r
    ensures r.Ok? ==> r'.value == prefix + r.value
  {
    match r
    case Ok(s) => Ok(prefix + s)
    case Err(e) => Err(e)
  }

  /** Two prefixes put on one after the other are their concatenation. */
  lemma PrefixWithTwice(p: string, q: string, r: Result<string>)
    ensures PrefixWith(p, PrefixWith(q, r)) == PrefixWith(p + q, r)
  {
    if r.Ok? {
      assert p + (q + r.value) == (p + q) + r.value;
    }
  }

  lemma PrefixWithNothing(r: Result<string>)
    ensures PrefixWith("", r) == r
  {
    if r.Ok? {
      assert "" + r.value == r.value;
    }
  }
}
