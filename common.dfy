/** Small shared vocabulary: optional values and JavaScript truthiness of optional strings. */
module Common {

  /** A value that may be absent (`null` / `undefined` on the JavaScript side). */
  datatype Option<+T> = None | Some(value: T) {

    /** The value, or `default` when absent (the `x || default` / COALESCE idiom). */
    function GetOr(default: T): T {
      match this
      case Some(v) => v
      case None => default
    }
  }

  /** `!s` in JavaScript for a string-or-missing value: missing and "" are falsy, every other string is truthy. */
  predicate Falsy(s: Option<string>) {
    s.None? || s.value == ""
  }

  /** `part` sits in `whole` starting at index `i`. */
  ghost predicate OccursAt(part: string, whole: string, i: int) {
    0 <= i <= |whole| - |part| && whole[i..i + |part|] == part
  }

  /** `s || ""` in JavaScript: a falsy value is replaced by the empty string. */
  function OrEmpty(s: Option<string>): (r: string)
    ensures Falsy(s) ==> r == ""
    ensures !Falsy(s) ==> r == s.value
  {
    if Falsy(s) then "" else s.value
  }
}
