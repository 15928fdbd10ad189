/** Bounded C strings, as the SoftBus and its JSON extractor copy and compare them. */
module CString {

  /** What a bounded copy keeps of a string, and what a bounded comparison looks at. */
  function Truncated(s: string, n: nat): (r: string)
    ensures |r| <= n
  {
    if |s| <= n then s else s[..n]
  }
}
