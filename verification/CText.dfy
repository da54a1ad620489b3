/** The character and substring primitives of `SRL::String` that the other components lean on.

    A Dafny `char` stands for one C `char`; codes of 128 and above are the values that are
    negative in a signed C `char`.  A string may hold '\0', and the primitives that go through
    the C library stop there. */
module CText {

  /** `isspace` in the C locale. */
  predicate IsSpace(c: char) {
    c == ' ' || 9 <= c as int <= 13
  }

  /** Blank, tab, line feed, vertical tab, form feed and carriage return. */
  lemma SpaceCodes(c: char)
    ensures IsSpace(c) <==> c as int in {32, 9, 10, 11, 12, 13}
  {
  }

  predicate IsDigit(c: char) {
    '0' <= c <= '9'
  }

  /** `String::find(char, pos)`, that is `strchr`: the search ends at the first '\0'. */
  function Find(s: string, c: char, pos: nat): (i: int)
    requires pos <= |s| && c != '\0'
    ensures -1 <= i < |s|
    ensures i >= 0 ==> pos <= i && s[i] == c && forall k :: pos <= k < i ==> s[k] != c && s[k] != '\0'
    decreases |s| - pos
  {
    if pos == |s| then -1
    else if s[pos] == c then pos
    else if s[pos] == '\0' then -1
    else Find(s, c, pos + 1)
  }

  /** The text from `pos` that a C string function sees. */
  function Tail(s: string, pos: nat): (t: string)
    requires pos <= |s|
    ensures t <= s[pos..] && '\0' !in t
    ensures pos < |s| && s[pos] != '\0' ==> |t| > 0 && t[0] == s[pos]
    decreases |s| - pos
  {
    if pos == |s| || s[pos] == '\0' then "" else [s[pos]] + Tail(s, pos + 1)
  }

  /** `String::mid`: a length of 0 makes the constructor fall back on `strlen`. */
  function Mid(s: string, pos: nat, len: nat): (text: string) {
    if pos + len > |s| then ""
    else if len == 0 then Tail(s, pos)
    else s[pos..pos + len]
  }

  /** `String::operator+=(char)` drops '\0'. */
  function Append(c: char): (text: string) {
    if c == '\0' then "" else [c]
  }

  predicate AllSpace(s: string) {
    forall i :: 0 <= i < |s| ==> IsSpace(s[i])
  }

  /** Where `hasContent` stops skipping white space. */
  function SkipSpace(s: string, pos: nat): (i: nat)
    requires pos <= |s|
    ensures pos <= i <= |s|
    ensures AllSpace(s[pos..i])
    ensures i < |s| ==> !IsSpace(s[i])
    decreases |s| - pos
  {
    if pos == |s| || !IsSpace(s[pos]) then pos else SkipSpace(s, pos + 1)
  }

  /** A `strchr` that has to cross `gap` finds the character right behind it. */
  lemma {:induction false} FindAcross(s: string, c: char, pos: nat, gap: string)
    requires c != '\0' && c !in gap && '\0' !in gap
    requires pos + |gap| < |s| && s[pos..pos + |gap|] == gap && s[pos + |gap|] == c
    ensures Find(s, c, pos) == pos + |gap|
    decreases |gap|
  {
    if gap != "" {
      assert s[pos] == s[pos..pos + |gap|][0] == gap[0];
      assert s[pos + 1..pos + |gap|] == gap[1..];
      FindAcross(s, c, pos + 1, gap[1..]);
    }
  }

  /** Skipping stops right behind a run of white space. */
  lemma {:induction false} SkipAcross(s: string, pos: nat, gap: string)
    requires AllSpace(gap)
    requires pos + |gap| < |s| && s[pos..pos + |gap|] == gap && !IsSpace(s[pos + |gap|])
    ensures SkipSpace(s, pos) == pos + |gap|
    decreases |gap|
  {
    if gap != "" {
      assert s[pos] == s[pos..pos + |gap|][0] == gap[0];
      assert s[pos + 1..pos + |gap|] == gap[1..];
      SkipAcross(s, pos + 1, gap[1..]);
    }
  }

  lemma {:induction false} TailWhole(s: string, pos: nat)
    requires pos <= |s| && '\0' !in s
    ensures Tail(s, pos) == s[pos..]
    decreases |s| - pos
  {
    if pos < |s| {
      TailWhole(s, pos + 1);
      assert s[pos..] == [s[pos]] + s[pos + 1..];
    }
  }

  /** A search for a character that does not follow finds nothing. */
  lemma {:induction false} FindNone(s: string, c: char, pos: nat)
    requires pos <= |s| && c != '\0' && c !in s[pos..]
    ensures Find(s, c, pos) == -1
    decreases |s| - pos
  {
    if pos < |s| {
      assert s[pos] in s[pos..];
      assert forall x :: x in s[pos + 1..] ==> x in s[pos..];
      FindNone(s, c, pos + 1);
    }
  }
}
