// Splitting texts at a separator and joining them again.
module Splitting {
  // String.split with a separator of one character
  function SplitOn(s: string, separator: char): (parts: seq<string>)
    ensures |parts| > 0
  {
    if s == "" then [""]
    else if s[0] == separator then [""] + SplitOn(s[1..], separator)
    else var parts := SplitOn(s[1..], separator); [[s[0]] + parts[0]] + parts[1..]
  }

  function JoinWith(parts: seq<string>, separator: string): string {
    if |parts| == 0 then ""
    else if |parts| == 1 then parts[0]
    else parts[0] + separator + JoinWith(parts[1..], separator)
  }

  lemma Assoc<T>(a: seq<T>, b: seq<T>, c: seq<T>)
    ensures a + (b + c) == a + b + c
  {
  }
}
