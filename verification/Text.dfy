/** The std::string operations the modelled code uses. */
module Text {
  /** find_last_of for one character; -1 stands for npos */
  function FindLast(s: string, c: char): (p: int)
    ensures -1 <= p < |s|
    ensures p >= 0 ==> s[p] == c
    ensures forall i :: p < i < |s| ==> s[i] != c
  {
    if s == [] then -1
    else if s[|s| - 1] == c then |s| - 1
    else FindLast(s[..|s| - 1], c)
  }

  /** find_first_of for one character; -1 stands for npos */
  function FindFirst(s: string, c: char): (p: int)
    ensures -1 <= p < |s|
    ensures p >= 0 ==> s[p] == c && forall i :: 0 <= i < p ==> s[i] != c
    ensures p < 0 ==> c !in s
  {
    if s == [] then -1
    else if s[0] == c then 0
    else var p := FindFirst(s[1..], c); if p < 0 then -1 else p + 1
  }

  lemma FindLastUnique(s: string, c: char, p: int)
    requires -1 <= p < |s| && (p >= 0 ==> s[p] == c)
    requires forall i :: p < i < |s| ==> s[i] != c
    ensures FindLast(s, c) == p
  {
  }
}
