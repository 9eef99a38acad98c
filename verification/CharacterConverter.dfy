/**
 * The command-line converter for single-character options such as the CSV
 * delimiter (`CharacterConverter.convert`). A Java string is a sequence of
 * UTF-16 code units, so its length counts a character outside the Basic
 * Multilingual Plane twice.
 */
module CharacterConverter {
  import opened Wrappers

  /** A character that Java stores in one UTF-16 code unit. */
  predicate IsBmp(c: char) {
    (c as int) < 0x1_0000
  }

  /** `String.length()`: the number of UTF-16 code units. */
  function Utf16Length(s: string): (n: nat)
    ensures n >= |s|
    ensures n <= 2 * |s|
    ensures n == |s| <==> forall i :: 0 <= i < |s| ==> IsBmp(s[i])
  {
    if |s| == 0 then 0
    else
      var rest := Utf16Length(s[1..]);
      assert forall i :: 1 <= i < |s| ==> s[i] == s[1..][i - 1];
      (if IsBmp(s[0]) then 1 else 2) + rest
  }

  /** A character counts one code unit in the Basic Multilingual Plane and two (a surrogate pair) outside it. */
  lemma Utf16LengthChar(c: char)
    ensures Utf16Length([c]) == if IsBmp(c) then 1 else 2
  {
    assert [c][1..] == [];
  }

  /**
   * The length of a concatenation is the sum of the lengths; with
   * `Utf16LengthChar` this fixes `Utf16Length` on every string.
   */
  lemma {:induction false} Utf16LengthConcat(a: string, b: string)
    ensures Utf16Length(a + b) == Utf16Length(a) + Utf16Length(b)
  {
    if |a| == 0 {
      assert a + b == b;
    } else {
      Utf16LengthConcat(a[1..], b);
      assert (a + b)[1..] == a[1..] + b;
      assert (a + b)[0] == a[0];
    }
  }

  /** The `ParameterException` raised for a value that is not one character. */
  datatype ConvertError = NotSingleChar(optionName: string, value: string)

  /**
   * `convert(value)`: succeeds exactly when the value is one UTF-16 code
   * unit long, returning that character; otherwise reports the option and
   * the offending value.
   */
  function Convert(optionName: string, value: string): (r: Result<char, ConvertError>)
    ensures r.Success? <==> |value| == 1 && IsBmp(value[0])
    ensures r.Success? ==> value == [r.value]
    ensures r.Failure? ==> r.error == NotSingleChar(optionName, value)
  {
    if Utf16Length(value) != 1 then Failure(NotSingleChar(optionName, value))
    else Success(value[0])
  }

  /** Every character Java holds in one code unit converts to itself. */
  lemma ConvertSingle(optionName: string, c: char)
    requires IsBmp(c)
    ensures Convert(optionName, [c]) == Success(c)
  {
  }

  /** The empty string, and any string of two or more code units, is rejected. */
  lemma ConvertRejects(optionName: string, value: string)
    requires Utf16Length(value) != 1
    ensures Convert(optionName, value) == Failure(NotSingleChar(optionName, value))
  {
  }

  /** A supplementary character is a surrogate pair in Java, hence two code units, hence rejected. */
  lemma {:induction false} ConvertRejectsSupplementary(optionName: string, c: char)
    requires !IsBmp(c)
    ensures Utf16Length([c]) == 2
    ensures Convert(optionName, [c]).Failure?
  {
    assert [c][1..] == [];
  }
}
