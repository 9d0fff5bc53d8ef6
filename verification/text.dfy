/** Text primitives the classifier and the line dispatcher share: prefixes,
    substrings, Unicode white space trimming and case folding for keyword
    matching. Strings are sequences of Unicode scalar values. */
module Text {

  /** One byte of a UTF-8 encoded string. */
  newtype byte = x: int | 0 <= x < 256

  /** `prefix` is an initial segment of `s` (Rust's `str::starts_with`). */
  predicate StartsWith<T(==)>(s: seq<T>, prefix: seq<T>) {
    |prefix| <= |s| && s[..|prefix|] == prefix
  }

  /** `sub` occurs in `s` starting at index `i`. */
  predicate OccursAt<T(==)>(s: seq<T>, sub: seq<T>, i: int) {
    0 <= i && i + |sub| <= |s| && s[i..i + |sub|] == sub
  }

  /** `sub` is a contiguous substring of `s` (Rust's `str::contains`). On
      UTF-8 text, containment of the byte encodings and of the scalar value
      sequences coincide, so the model states it on scalar values. */
  predicate Contains<T(==)>(s: seq<T>, sub: seq<T>) {
    exists i | 0 <= i <= |s| - |sub| :: OccursAt(s, sub, i)
  }

  lemma ContainsEmpty<T>(s: seq<T>)
    ensures Contains(s, [])
  {
    assert OccursAt(s, [], 0);
  }

  lemma ContainsSelf<T>(s: seq<T>)
    ensures Contains(s, s)
  {
    assert OccursAt(s, s, 0);
  }

  /** A text contains what it ends with. */
  lemma ContainsSuffix<T>(s: seq<T>, sub: seq<T>)
    ensures Contains(s + sub, sub)
  {
    assert (s + sub)[|s|..|s| + |sub|] == sub;
    assert OccursAt(s + sub, sub, |s|);
  }

  /** Appending to a text keeps what it contains. */
  lemma ContainsAppend<T>(s: seq<T>, sub: seq<T>, t: seq<T>)
    requires Contains(s, sub)
    ensures Contains(s + t, sub)
  {
    var i :| 0 <= i <= |s| - |sub| && OccursAt(s, sub, i);
    assert (s + t)[i..i + |sub|] == s[i..i + |sub|];
    assert OccursAt(s + t, sub, i);
  }

  /** Unicode's White_Space property, the set Rust's `str::trim` strips. */
  predicate IsWhiteSpace(c: char) {
    || ('\t' <= c <= '\r')
    || c == ' '
    || c == '\U{85}'
    || c == '\U{A0}'
    || c == '\U{1680}'
    || ('\U{2000}' <= c <= '\U{200A}')
    || c == '\U{2028}'
    || c == '\U{2029}'
    || c == '\U{202F}'
    || c == '\U{205F}'
    || c == '\U{3000}'
  }

  /** `s` without its leading white space. */
  function TrimStart(s: string): (r: string)
    ensures |r| <= |s| && r == s[|s| - |r|..]
    ensures forall i | 0 <= i < |s| - |r| :: IsWhiteSpace(s[i])
    ensures |r| > 0 ==> !IsWhiteSpace(r[0])
    decreases |s|
  {
    if |s| > 0 && IsWhiteSpace(s[0]) then TrimStart(s[1..]) else s
  }

  /** `s` without its trailing white space. */
  function TrimEnd(s: string): (r: string)
    ensures |r| <= |s| && r == s[..|r|]
    ensures forall i | |r| <= i < |s| :: IsWhiteSpace(s[i])
    ensures |r| > 0 ==> !IsWhiteSpace(r[|r| - 1])
    decreases |s|
  {
    if |s| > 0 && IsWhiteSpace(s[|s| - 1]) then TrimEnd(s[..|s| - 1]) else s
  }

  /** Rust's `str::trim`: white space removed from both ends. */
  function Trim(s: string): string {
    TrimEnd(TrimStart(s))
  }

  /** The first character of `s` that is not white space is `c`. */
  predicate FirstNonWhiteSpaceIs(s: string, c: char) {
    exists k | 0 <= k < |s| :: s[k] == c && forall i | 0 <= i < k :: IsWhiteSpace(s[i])
  }

  /** Trimming and then testing the first character is the same as looking
      for the first character that is not white space. */
  lemma TrimmedStartsWith(s: string, c: char)
    requires !IsWhiteSpace(c)
    ensures StartsWith(Trim(s), [c]) <==> FirstNonWhiteSpaceIs(s, c)
  {
    var t := TrimStart(s);
    var k := |s| - |t|;
    if StartsWith(Trim(s), [c]) {
      assert Trim(s)[0] == c;
      assert t[0] == c;
      assert s[k] == c;
    }
    if FirstNonWhiteSpaceIs(s, c) {
      var j :| 0 <= j < |s| && s[j] == c && forall i | 0 <= i < j :: IsWhiteSpace(s[i]);
      assert j == k;
      assert t[0] == c;
      assert TrimEnd(t)[0] == c;
    }
  }

  predicate IsAsciiUpper(c: char) {
    'A' <= c <= 'Z'
  }

  /** The characters `c` lowercases to, as far as matching against lower-case
      ASCII keywords can tell: ASCII capitals, the Kelvin sign and the capital
      I with dot above are mapped as Unicode maps them; every other character
      is kept, since its lower-case form contains no ASCII letter either. */
  function LowerChar(c: char): (r: string)
    ensures IsAsciiUpper(c) ==> r == [(c as int + 32) as char]
    ensures 'a' <= c <= 'z' ==> r == [c]
  {
    if IsAsciiUpper(c) then [(c as int + 32) as char]
    else if c == '\U{212A}' then "k"
    else if c == '\U{130}' then ['i', '\U{307}']
    else [c]
  }

  /** Rust's `str::to_lowercase`, up to the non-ASCII case pairs that never
      produce an ASCII letter. */
  function Lower(s: string): string
    decreases |s|
  {
    if |s| == 0 then [] else LowerChar(s[0]) + Lower(s[1..])
  }

  /** Two characters that differ at most in ASCII letter case. */
  predicate SameIgnoringAsciiCase(a: char, b: char) {
    a == b
    || (IsAsciiUpper(a) && b as int == a as int + 32)
    || (IsAsciiUpper(b) && a as int == b as int + 32)
  }

  /** Strings that differ only in ASCII letter case lowercase alike. */
  lemma {:induction false} LowerIgnoresAsciiCase(s: string, t: string)
    requires |s| == |t|
    requires forall i | 0 <= i < |s| :: SameIgnoringAsciiCase(s[i], t[i])
    ensures Lower(s) == Lower(t)
    decreases |s|
  {
    if |s| > 0 {
      assert SameIgnoringAsciiCase(s[0], t[0]);
      assert LowerChar(s[0]) == LowerChar(t[0]);
      LowerIgnoresAsciiCase(s[1..], t[1..]);
    }
  }

  /** No character of `s` is one that `LowerChar` changes. */
  predicate HasNoUpperCase(s: string) {
    forall c | c in s :: !IsAsciiUpper(c) && c != '\U{212A}' && c != '\U{130}'
  }

  /** Text with no character that lowercases to something else (as far as
      `LowerChar` distinguishes) is its own lower-case form. */
  lemma {:induction false} LowerOfLowerCase(s: string)
    requires HasNoUpperCase(s)
    ensures Lower(s) == s
    decreases |s|
  {
    if |s| > 0 {
      assert forall c | c in s[1..] :: c in s;
      LowerOfLowerCase(s[1..]);
      assert s[0] in s;
      assert s == [s[0]] + s[1..];
    }
  }
}
