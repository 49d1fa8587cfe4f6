/** `LeftPad` of internal/utils/helpers.go. Go's `len` counts the bytes of a
    string's UTF-8 encoding, which `Utf8Len` computes. */
module Utils {
  import opened Strings

  /** `s` written `n` times. */
  function Repeat(s: string, n: nat): (r: string)
  {
    if n == 0 then "" else Repeat(s, n - 1) + s
  }

  /** The padded text `LeftPad` promises: `value` itself when it is longer
      than `length` bytes, and otherwise `padChar` written once per missing
      byte in front of `value`. */
  function LeftPadded(value: string, length: int, padChar: string): string
  {
    if Utf8Len(value) > length then value else Repeat(padChar, length - Utf8Len(value)) + value
  }

  /** `LeftPad(value, length, padChar)`. */
  method LeftPad(value: string, length: int, padChar: string) returns (output: string)
    ensures output == LeftPadded(value, length, padChar)
  {
    if Utf8Len(value) > length {
      return value;
    }
    output := "";
    var i := 0;
    while i < length - Utf8Len(value)
      invariant 0 <= i <= length - Utf8Len(value)
      invariant output == Repeat(padChar, i)
    {
      output := output + padChar;
      i := i + 1;
    }
    output := output + value;
  }

  lemma {:induction false} Utf8LenRepeat(s: string, n: nat)
    ensures Utf8Len(Repeat(s, n)) == n * Utf8Len(s)
  {
    if n > 0 {
      Utf8LenRepeat(s, n - 1);
      Utf8LenConcat(Repeat(s, n - 1), s);
      assert (n - 1) * Utf8Len(s) + Utf8Len(s) == n * Utf8Len(s);
    }
  }

  /** The result always ends with `value`, and with a one-byte `padChar` it
      is exactly `length` bytes long unless `value` is already longer. */
  lemma LeftPaddedShape(value: string, length: int, padChar: string)
    ensures var r := LeftPadded(value, length, padChar);
      |r| >= |value| && r[|r| - |value|..] == value
    ensures Utf8Len(padChar) == 1 ==>
      Utf8Len(LeftPadded(value, length, padChar)) == if Utf8Len(value) > length then Utf8Len(value) else length
  {
    if Utf8Len(value) <= length {
      var n := length - Utf8Len(value);
      Utf8LenRepeat(padChar, n);
      Utf8LenConcat(Repeat(padChar, n), value);
    }
  }

  lemma {:induction false} RepeatEmpty(n: nat)
    ensures Repeat("", n) == ""
  {
    if n > 0 {
      RepeatEmpty(n - 1);
    }
  }

  /** A value of exactly `length` bytes, or an empty `padChar`, is returned
      unchanged. */
  lemma LeftPaddedUnchanged(value: string, length: int, padChar: string)
    requires Utf8Len(value) >= length || padChar == ""
    ensures LeftPadded(value, length, padChar) == value
  {
    if Utf8Len(value) <= length {
      RepeatEmpty(length - Utf8Len(value));
    }
  }
}
