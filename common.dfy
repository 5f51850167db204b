/** Option type used for the PHP `false` / JavaScript failure returns of the lineup manager. */
module Wrappers {
  datatype Option<+T> = None | Some(value: T)
}

/** The PHP notions of truthiness the plugin relies on, restricted to string values. */
module PhpValues {
  /** `empty($s)` for a string, which is also `!$s`: only "" and "0" are empty. */
  predicate IsEmpty(s: string): (r: bool)
    ensures r <==> |s| <= 1 && forall i :: 0 <= i < |s| ==> s[i] == '0'
  {
    s == "" || s == "0"
  }
}
