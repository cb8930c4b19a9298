/** Whitespace trimming as performed by ECMAScript's String.prototype.trim,
    which the task service applies to the text of every new task. */
module Text {

  /** The code points ECMAScript classes as WhiteSpace or LineTerminator:
      TAB, VT, FF, SP, NBSP, ZWNBSP, the other Unicode "Zs" separators,
      LF, CR, LINE SEPARATOR and PARAGRAPH SEPARATOR. */
  predicate IsWhitespace(c: char) {
    || c == '\t' || c == '\U{000B}' || c == '\U{000C}' || c == ' '
    || c == '\U{00A0}' || c == '\U{FEFF}' || c == '\U{1680}'
    || ('\U{2000}' <= c <= '\U{200A}')
    || c == '\U{202F}' || c == '\U{205F}' || c == '\U{3000}'
    || c == '\n' || c == '\r' || c == '\U{2028}' || c == '\U{2029}'
  }

  predicate AllWhitespace(s: string) {
    forall i :: 0 <= i < |s| ==> IsWhitespace(s[i])
  }

  /** Neither the first nor the last character of `s` is whitespace. */
  predicate Tight(s: string) {
    s == [] || (!IsWhitespace(s[0]) && !IsWhitespace(s[|s| - 1]))
  }

  /** `r` occurs in `s` at offset `lead`, and everything around it is whitespace. */
  predicate Frames(s: string, lead: int, r: string) {
    && 0 <= lead
    && lead + |r| <= |s|
    && s[lead..lead + |r|] == r
    && (forall i :: 0 <= i < lead ==> IsWhitespace(s[i]))
    && (forall i :: lead + |r| <= i < |s| ==> IsWhitespace(s[i]))
  }

  /** The first index at or after `i` that does not hold whitespace (or `|s|`). */
  function SkipWhitespace(s: string, i: nat): (k: nat)
    requires i <= |s|
    ensures i <= k <= |s|
    ensures forall j :: i <= j < k ==> IsWhitespace(s[j])
    ensures k < |s| ==> !IsWhitespace(s[k])
    decreases |s| - i
  {
    if i < |s| && IsWhitespace(s[i]) then SkipWhitespace(s, i + 1) else i
  }

  /** Moving back from `hi` but not below `lo`, the end of the last
      character that is not whitespace (or `lo`). */
  function BackOverWhitespace(s: string, lo: nat, hi: nat): (k: nat)
    requires lo <= hi <= |s|
    ensures lo <= k <= hi
    ensures forall j :: k <= j < hi ==> IsWhitespace(s[j])
    ensures lo < k ==> !IsWhitespace(s[k - 1])
    decreases hi - lo
  {
    if lo < hi && IsWhitespace(s[hi - 1]) then BackOverWhitespace(s, lo, hi - 1) else hi
  }

  /** String.prototype.trim: the text between the leading and the trailing whitespace. */
  function Trim(s: string): (r: string)
    ensures Tight(r)
    ensures exists lead :: Frames(s, lead, r)
  {
    var lo := SkipWhitespace(s, 0);
    var hi := BackOverWhitespace(s, lo, |s|);
    assert Frames(s, lo, s[lo..hi]);
    s[lo..hi]
  }

  /** Trim is characterised by its contract: the only whitespace-framed
      piece of `s` with no whitespace at either end is `Trim(s)`. */
  lemma TrimUnique(s: string, lead: int, r: string)
    requires Frames(s, lead, r)
    requires Tight(r)
    ensures r == Trim(s)
  {
  }

  /** A string with no whitespace at either end is its own trim. */
  lemma TrimTight(s: string)
    requires Tight(s)
    ensures Trim(s) == s
  {
  }

  /** Trimming an already trimmed string changes nothing. */
  lemma TrimIdempotent(s: string)
    ensures Trim(Trim(s)) == Trim(s)
  {
  }

  /** The trimmed text is empty exactly when the input is all whitespace;
      this is the test the task screen applies before calling addTodo. */
  lemma TrimEmptyIff(s: string)
    ensures Trim(s) == [] <==> AllWhitespace(s)
  {
  }
}
