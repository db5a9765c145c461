/** Shared vocabulary: bytes, optional values, results carrying the exceptions
    the JavaScript code would throw, and the two string-slicing primitives the
    relay uses on its envelopes. */
module Basics {

  /** One octet of a Node `Buffer` / `Uint8Array`. */
  type Byte = b: int | 0 <= b < 256

  datatype Option<+T> = None | Some(value: T)

  /** The exceptions that end a request handler early. Each names the call that
      would throw (or, for `InvalidBase64`, the point where the model is
      stricter than Node's lenient base64 decoder). */
  datatype Error =
    | InvalidBase64       // text that is not canonical base64
    | KeyImportFailed     // crypto.subtle.importKey rejects the key material
    | DataTooLong         // RSA-OAEP input longer than the padding scheme allows
    | DecryptFailed       // crypto.subtle.decrypt rejects the ciphertext
    | IvOutOfRange        // `new Uint8Array(buffer, 0, 16)` on a buffer shorter than 16 bytes

  datatype Result<+T> = Ok(value: T) | Err(error: Error) {
    predicate IsFailure() {
      Err?
    }

    function PropagateFailure<U>(): Result<U>
      requires Err?
    {
      Err(error)
    }

    function Extract(): T
      requires Ok?
    {
      value
    }
  }

  /** `s.slice(0, n)` / `s.substring(0, n)` for a non-negative `n`: never fails,
      and returns the whole string when it is shorter than `n`. */
  function Prefix<T>(s: seq<T>, n: nat): (r: seq<T>)
    ensures |r| == if |s| < n then |s| else n
    ensures r <= s
  {
    if |s| < n then s else s[..n]
  }

  /** `s.slice(n)` / `s.substring(n)`: empty when the string is shorter than `n`. */
  function Suffix<T>(s: seq<T>, n: nat): (r: seq<T>)
    ensures Prefix(s, n) + r == s
  {
    if |s| < n then [] else s[n..]
  }

  /** Splitting a concatenation at the length of its first part gives back both parts. */
  lemma SplitAtJoin<T>(a: seq<T>, b: seq<T>)
    ensures Prefix(a + b, |a|) == a
    ensures Suffix(a + b, |a|) == b
  {
    assert (a + b)[..|a|] == a;
    assert (a + b)[|a|..] == b;
  }
}
