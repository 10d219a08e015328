/** The two bits of PHP semantics the composer leans on: truthiness of strings and `ucfirst`. */
module Php {
  import opened Wrappers

  /** A PHP string is falsy when it is empty or exactly "0". */
  predicate Falsy(s: string)
  {
    s == "" || s == "0"
  }

  /** An optional string (null when absent) used as a condition: `if ($x)`. */
  predicate Truthy(o: Option<string>)
  {
    o.Some? && !Falsy(o.value)
  }

  /** `ucfirst`: the first character upper-cased when it is an ASCII lower-case letter. */
  function UcFirst(s: string): (r: string)
    ensures |r| == |s| && (|s| > 0 ==> r[1..] == s[1..])
    ensures |s| > 0 && 'a' <= s[0] <= 'z' ==> 'A' <= r[0] <= 'Z' && r[0] as int + 32 == s[0] as int
    ensures |s| > 0 && !('a' <= s[0] <= 'z') ==> r == s
  {
    if |s| > 0 && 'a' <= s[0] <= 'z' then [(s[0] as int - 32) as char] + s[1..] else s
  }
}
