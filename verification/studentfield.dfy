/** The two reads of a row's `Student` text: the register number, captured by
    the regular expression `/\((.*?)\)/`, and the name, the first piece of
    `split(" (")`. */
module StudentField {
  import opened Optional

  /** The characters a regular-expression `.` does not match. */
  predicate IsLineTerminator(c: char) {
    c == '\n' || c == '\r' || c as int == 0x2028 || c as int == 0x2029
  }

  predicate NoLineTerminator(s: string, lo: int, hi: int)
    requires 0 <= lo <= hi <= |s|
  {
    forall m | lo <= m < hi :: !IsLineTerminator(s[m])
  }

  /** `\((.*)\)` can match the text from index `i` through index `j`. */
  predicate CanMatch(s: string, i: int, j: int) {
    0 <= i < j < |s| && s[i] == '(' && s[j] == ')' && NoLineTerminator(s, i + 1, j)
  }

  /** The match the lazy pattern reports: the leftmost start, and for that
      start the shortest match. */
  predicate IsFirstMatch(s: string, i: int, j: int) {
    && CanMatch(s, i, j)
    && (forall i', j' | 0 <= i' < i && i' < j' < |s| :: !CanMatch(s, i', j'))
    && (forall j' | i < j' < j :: !CanMatch(s, i, j'))
  }

  /** The first `)` at or after `k`, unless a line terminator comes first. */
  function CloseAfter(s: string, k: nat): (r: Option<nat>)
    requires k <= |s|
    ensures r.Some? ==> k <= r.value < |s| && s[r.value] == ')' && NoLineTerminator(s, k, r.value)
    ensures r.Some? ==> forall m | k <= m < r.value :: s[m] != ')'
    ensures r.None? ==> forall j | k <= j < |s| && s[j] == ')' :: !NoLineTerminator(s, k, j)
    decreases |s| - k
  {
    if k == |s| then None
    else if s[k] == ')' then Some(k)
    else if IsLineTerminator(s[k]) then None
    else CloseAfter(s, k + 1)
  }

  /** Scans for the first `(` at or after `from` that some later `)` closes. */
  function FindMatch(s: string, from: nat): (r: Option<(nat, nat)>)
    requires from <= |s|
    ensures r.Some? ==> from <= r.value.0 && CanMatch(s, r.value.0, r.value.1)
    ensures r.Some? ==> forall j' | r.value.0 < j' < r.value.1 :: !CanMatch(s, r.value.0, j')
    ensures r.Some? ==> forall i', j' | from <= i' < r.value.0 && i' < j' < |s| :: !CanMatch(s, i', j')
    ensures r.None? ==> forall i', j' | from <= i' < j' < |s| :: !CanMatch(s, i', j')
    decreases |s| - from
  {
    if from == |s| then None
    else if s[from] == '(' then
      match CloseAfter(s, from + 1)
      case Some(j) => Some((from, j))
      case None => FindMatch(s, from + 1)
    else FindMatch(s, from + 1)
  }

  /** The text of the first capture group of `/\((.*?)\)/` on `s`, if it matches. */
  function RegisterNumberMatch(s: string): (r: Option<string>)
    ensures r.None? <==> forall i, j | 0 <= i < j < |s| :: !CanMatch(s, i, j)
    ensures r.Some? ==> exists i, j :: IsFirstMatch(s, i, j) && r.value == s[i + 1..j]
  {
    match FindMatch(s, 0)
    case Some((i, j)) =>
      assert IsFirstMatch(s, i, j);
      Some(s[i + 1..j])
    case None => None
  }

  /** `s` holds the separator ` (` at index `p`. */
  predicate SeparatorAt(s: string, p: int) {
    0 <= p && p + 1 < |s| && s[p] == ' ' && s[p + 1] == '('
  }

  /** `name` is the first piece of `s.split(" (")`: the text before the first
      separator, or all of `s` when there is none. */
  predicate IsNamePart(s: string, name: string) {
    && |name| <= |s| && name == s[..|name|]
    && (|name| == |s| || SeparatorAt(s, |name|))
    && forall p | 0 <= p < |name| :: !SeparatorAt(s, p)
  }

  function NameFrom(s: string, p: nat): (name: string)
    requires p <= |s|
    requires forall q | 0 <= q < p :: !SeparatorAt(s, q)
    ensures IsNamePart(s, name)
    decreases |s| - p
  {
    if p + 1 >= |s| then s
    else if SeparatorAt(s, p) then s[..p]
    else NameFrom(s, p + 1)
  }

  function NameBeforeSeparator(s: string): (name: string)
    ensures IsNamePart(s, name)
  {
    NameFrom(s, 0)
  }

  /** `IsNamePart` pins the name down: there is exactly one. */
  lemma {:induction false} NamePartUnique(s: string, a: string, b: string)
    requires IsNamePart(s, a) && IsNamePart(s, b)
    ensures a == b
  {
  }
}
