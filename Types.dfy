/** Types shared by every part of the model: bytes, optional values and the
    error codes the container tool actually returns. */
module Types {

  /** One byte of the container or of a DSP message. */
  newtype byte = x: int | 0 <= x < 256

  /** A value that may be absent: a NULL pointer in the tool. */
  datatype Option<+T> = None | Some(value: T)

  /** The `enum tfa98xx_error` codes that the modelled functions can return. */
  datatype Tfa98xxError =
    | ErrorOk            // TFA98XX_ERROR_OK = 0
    | ErrorBadParameter  // TFA98XX_ERROR_BAD_PARAMETER = 2
    | ErrorFail          // TFA98XX_ERROR_FAIL = 3

  /** The `enum tfa_error` codes that the container loader can return. */
  datatype TfaError =
    | TfaErrorOk         // tfa_error_ok
    | TfaErrorContainer  // tfa_error_container

  function Min(a: int, b: int): int
  {
    if a <= b then a else b
  }

  /** A slice is the concatenation of its two parts. */
  lemma SliceSplit<T>(s: seq<T>, a: nat, b: nat, c: nat)
    requires a <= b <= c <= |s|
    ensures s[a..c] == s[a..b] + s[b..c]
  {
  }

  /** A suffix is the concatenation of a slice and the suffix after it. */
  lemma SuffixSplit<T>(s: seq<T>, a: nat, b: nat)
    requires a <= b <= |s|
    ensures s[a..] == s[a..b] + s[b..]
  {
  }

  /** The parts of a concatenation. */
  lemma AppendParts<T>(a: seq<T>, b: seq<T>)
    ensures (a + b)[..|a|] == a && (a + b)[|a|..] == b
    ensures forall i :: 0 <= i < |a| ==> (a + b)[i] == a[i]
  {
  }

  lemma AppendAssoc<T>(a: seq<T>, b: seq<T>, c: seq<T>)
    ensures (a + b) + c == a + (b + c)
  {
  }

  lemma AppendNil<T>(a: seq<T>)
    ensures a + [] == a
  {
  }

  /** `a` is a prefix of `b`. */
  ghost predicate IsPrefix<T>(a: seq<T>, b: seq<T>)
  {
    |a| <= |b| && b[..|a|] == a
  }

  lemma PrefixOfAppend<T>(a: seq<T>, b: seq<T>)
    ensures IsPrefix(a, a + b)
  {
    AppendParts(a, b);
  }

  lemma PrefixTrans<T>(a: seq<T>, b: seq<T>, c: seq<T>)
    requires IsPrefix(a, b) && IsPrefix(b, c)
    ensures IsPrefix(a, c)
  {
    assert c[..|a|] == c[..|b|][..|a|];
  }
}
