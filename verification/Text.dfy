/** Searching in strings, and results that may be missing. */
module Text {

  datatype Option<T> = None | Some(value: T)

  /** strchr: where c occurs first, or the length of s. */
  function IndexOf(s: string, c: char): (k: nat)
    ensures k <= |s| && c !in s[..k] && (k < |s| ==> s[k] == c)
  {
    if s == [] || s[0] == c then 0 else 1 + IndexOf(s[1..], c)
  }
}
