/** Truncation of error and log lines for display (`shorter` in stress.py). */
module Text {

  /** Lines longer than this are shortened. */
  const MaxLength := 80
  /** A `(` is looked for only among this many leading characters. */
  const ParenWindow := 60
  /** How many characters of each end survive when a line is cut in the middle. */
  const KeptEnd := 35
  const Ellipsis := "..."

  /** The part of `s` before the first `c`, or all of `s` when `c` does not occur:
      Python's `s.split(c, 1)[0]`. */
  function PrefixBefore(s: string, c: char): (r: string)
    ensures r <= s
    ensures c !in r
    ensures |r| < |s| ==> s[|r|] == c
    ensures c !in s ==> r == s
  {
    if s == [] || s[0] == c then [] else [s[0]] + PrefixBefore(s[1..], c)
  }

  /** Shortens a line of more than 80 characters: to what comes before its first `(`
      when there is one among the first 60 characters, otherwise to its first and
      last 35 characters joined by `...`. */
  function Shorter(line: string): (r: string)
    ensures |r| <= MaxLength
    ensures |line| <= MaxLength ==> r == line
    ensures |line| > MaxLength && '(' in line[..ParenWindow] ==>
              && r <= line && |r| < ParenWindow && '(' !in r && line[|r|] == '('
    ensures |line| > MaxLength && '(' !in line[..ParenWindow] ==>
              && |r| == 2 * KeptEnd + |Ellipsis|
              && r[..KeptEnd] == line[..KeptEnd]
              && r[KeptEnd..KeptEnd + |Ellipsis|] == Ellipsis
              && r[KeptEnd + |Ellipsis|..] == line[|line| - KeptEnd..]
  {
    if |line| > MaxLength then
      if '(' in line[..ParenWindow] then
        PrefixBefore(line, '(')
      else
        line[..KeptEnd] + Ellipsis + line[|line| - KeptEnd..]
    else
      line
  }

  /** Shortening twice is shortening once: every result is already short enough. */
  lemma ShorterIdempotent(line: string)
    ensures Shorter(Shorter(line)) == Shorter(line)
  {
  }
}
