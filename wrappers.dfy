/** Option and Result, with the Python exceptions the codec can raise as errors. */
module Wrappers {

  datatype Option<+T> = None | Some(value: T)

  /** The exception a Python step raises on malformed input. */
  datatype Error =
    | IndexError      // a list or string index past the end
    | ValueError      // int('', 2): parsing an empty bit slice
    | KeyError        // a symbol with no compression code
    | AttributeError  // reading .left, .right or .symbol of None or of a bare string

  datatype Result<+T> = Ok(value: T) | Err(error: Error)

  /** Output produced before the rest of a computation: kept in front of its value, discarded with its error. */
  function PrefixWith<T>(prefix: seq<T>, r: Result<seq<T>>): (p: Result<seq<T>>)
    ensures p.Ok? <==> r.Ok?
    ensures p.Ok? ==> p.value == prefix + r.value
    ensures p.Err? ==> p.error == r.error
  {
    match r
    case Ok(rest) => Ok(prefix + rest)
    case Err(e) => Err(e)
  }

  lemma PrefixWithNothing<T>(r: Result<seq<T>>)
    ensures PrefixWith([], r) == r
  {
    if r.Ok? {
      assert [] + r.value == r.value;
    }
  }

  lemma PrefixWithAssoc<T>(a: seq<T>, b: seq<T>, r: Result<seq<T>>)
    ensures PrefixWith(a, PrefixWith(b, r)) == PrefixWith(a + b, r)
  {
    if r.Ok? {
      assert a + (b + r.value) == (a + b) + r.value;
    }
  }

  /** Output of a first element, then of the rest, is the output of the whole. */
  lemma PrefixWithCons<T>(s: seq<T>, r: Result<seq<T>>)
    requires s != []
    ensures PrefixWith([s[0]], PrefixWith(s[1..], r)) == PrefixWith(s, r)
  {
    PrefixWithAssoc([s[0]], s[1..], r);
    assert [s[0]] + s[1..] == s;
  }
}
