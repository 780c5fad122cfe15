// Character classes used by the service's regular expressions and by
// str.lower(): Python's `\s` (whitespace), `\w` (word characters) and the
// per-character lower-case mapping.

module CharClass {

  /** Python's `\s` on str patterns: exactly the characters for which
      str.isspace() holds. No whitespace character is a word character,
      which is what keeps `\s` runs and `\w` runs apart. */
  predicate IsSpace(c: char)
    ensures IsSpace(c) ==> !IsWordChar(c)
  {
    c == ' ' || ('\t' <= c <= '\r') || ('\U{1C}' <= c <= '\U{1F}') ||
    c == '\U{85}' || c == '\U{A0}' || c == '\U{1680}' ||
    ('\U{2000}' <= c <= '\U{200A}') || c == '\U{2028}' || c == '\U{2029}' ||
    c == '\U{202F}' || c == '\U{205F}' || c == '\U{3000}'
  }

  /** Python's `\w` on str patterns (alphanumeric or underscore), restricted
      to Basic Latin, Latin-1 and Cyrillic. On ASCII it is exactly
      `[A-Za-z0-9_]`. */
  predicate IsWordChar(c: char)
    ensures c < '\U{80}' ==>
              (IsWordChar(c) <==> ('a' <= c <= 'z') || ('A' <= c <= 'Z') || ('0' <= c <= '9') || c == '_')
  {
    ('a' <= c <= 'z') || ('A' <= c <= 'Z') || ('0' <= c <= '9') || c == '_' ||
    c == '\U{AA}' || c == '\U{B2}' || c == '\U{B3}' || c == '\U{B5}' ||
    c == '\U{B9}' || c == '\U{BA}' || ('\U{BC}' <= c <= '\U{BE}') ||
    ('\U{C0}' <= c <= '\U{FF}' && c != '\U{D7}' && c != '\U{F7}') ||
    ('\U{400}' <= c <= '\U{481}') || ('\U{48A}' <= c <= '\U{4FF}')
  }

  /** The character's lower-case form under str.lower(), for the same
      scripts; every other character maps to itself. */
  function Lower(c: char): (r: char)
    ensures IsWordChar(r) == IsWordChar(c)
    ensures IsSpace(r) == IsSpace(c)
  {
    var n := c as int;
    if 'A' <= c <= 'Z' then (n + 32) as char
    else if '\U{C0}' <= c <= '\U{DE}' && c != '\U{D7}' then (n + 32) as char
    else if '\U{400}' <= c <= '\U{40F}' then (n + 80) as char
    else if '\U{410}' <= c <= '\U{42F}' then (n + 32) as char
    else if ('\U{460}' <= c <= '\U{481}' || '\U{48A}' <= c <= '\U{4BF}' || '\U{4D0}' <= c <= '\U{4FF}') && n % 2 == 0
    then (n + 1) as char
    else if c == '\U{4C0}' then '\U{4CF}'
    else if '\U{4C1}' <= c <= '\U{4CE}' && n % 2 == 1 then (n + 1) as char
    else c
  }

  /** str.lower() on a whole string, character by character. */
  function LowerString(s: string): (r: string)
    ensures |r| == |s|
    ensures forall i :: 0 <= i < |s| ==> r[i] == Lower(s[i])
  {
    seq(|s|, i requires 0 <= i < |s| => Lower(s[i]))
  }

  /** Case folding: an upper-case letter and its lower-case partner have the
      same lower-case form, which is the lower-case letter itself. */
  lemma LowerFoldsCase(c: char)
    ensures ('a' <= c <= 'z' || ('\U{E0}' <= c <= '\U{FE}' && c != '\U{F7}') ||
             ('\U{430}' <= c <= '\U{44F}')) ==>
              Lower(c) == c && Lower((c as int - 32) as char) == c
    ensures '\U{450}' <= c <= '\U{45F}' ==>
              Lower(c) == c && Lower((c as int - 80) as char) == c
    ensures ('\U{461}' <= c <= '\U{481}' || '\U{48B}' <= c <= '\U{4BF}' || '\U{4D1}' <= c <= '\U{4FF}') &&
            c as int % 2 == 1 ==>
              Lower(c) == c && Lower((c as int - 1) as char) == c
    ensures '\U{4C2}' <= c <= '\U{4CE}' && c as int % 2 == 0 ==>
              Lower(c) == c && Lower((c as int - 1) as char) == c
    ensures c == '\U{4CF}' ==> Lower(c) == c && Lower('\U{4C0}') == c
  {
  }

  /** Lower-casing an already lower-cased character changes nothing. */
  lemma LowerIdempotent(c: char)
    ensures Lower(Lower(c)) == Lower(c)
  {
  }

  /** Lower-casing a lower-cased string changes nothing. */
  lemma LowerStringIdempotent(s: string)
    ensures LowerString(LowerString(s)) == LowerString(s)
  {
    forall i | 0 <= i < |s|
      ensures LowerString(LowerString(s))[i] == LowerString(s)[i]
    {
      LowerIdempotent(s[i]);
    }
  }
}
