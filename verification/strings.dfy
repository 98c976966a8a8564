/** .NET string references as the services see them. A `char` of the model stands for one
    UTF-16 code unit, which is the unit `String.Length` counts. */
module Strings {

  /** A string reference: `null`, or a sequence of code units. */
  datatype NString = Null | Str(chars: string)

  /** `string.IsNullOrEmpty`. */
  predicate IsNullOrEmpty(s: NString)
  {
    s.Null? || |s.chars| == 0
  }

  /** What a `{s}` hole of an interpolated string contributes: a null reference renders as "". */
  function Interpolated(s: NString): string
  {
    match s
    case Null => ""
    case Str(cs) => cs
  }
}
