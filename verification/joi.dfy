/** What Joi's `string().min().max()` and `number()` measure in a request body. */
module Joi {

  /** Number.MAX_SAFE_INTEGER, 2^53 - 1: `joi.number()` refuses anything larger in magnitude. */
  const MaxSafeInteger := 0x1F_FFFF_FFFF_FFFF

  /** A number `joi.number()` accepts without its `unsafe` flag. */
  predicate SafeInteger(n: int) {
    -MaxSafeInteger <= n <= MaxSafeInteger
  }

  /**
   * JavaScript's `length` of a string, which Joi's min and max compare:
   * UTF-16 code units, two for a character outside the Basic Multilingual Plane.
   */
  function Utf16Length(s: string): (n: nat)
    ensures |s| <= n <= 2 * |s|
    ensures n == |s| <==> forall i :: 0 <= i < |s| ==> s[i] as int < 0x1_0000
  {
    if s == [] then 0
    else (if s[0] as int < 0x1_0000 then 1 else 2) + Utf16Length(s[1..])
  }
}
