/** The email-address pattern of the PII check,
    `[a-zA-Z0-9._%+-]+@[a-zA-Z0-9.-]+\.[a-zA-Z]{2,}`, searched anywhere in a
    text. Every class in it is ASCII, and in UTF-8 every byte of a non-ASCII
    character is 0x80 or above, so matching the pattern against the bytes of
    a string finds a match exactly when matching it against the characters
    does; the pattern is therefore stated on bytes. */
module Email {
  import opened Text

  const AT: byte := 0x40
  const DOT: byte := 0x2E

  predicate IsLetter(b: byte) {
    (0x41 <= b <= 0x5A) || (0x61 <= b <= 0x7A)
  }

  predicate IsDigit(b: byte) {
    0x30 <= b <= 0x39
  }

  /** `[a-zA-Z0-9._%+-]`: a byte of the local part. */
  predicate IsLocalByte(b: byte) {
    IsLetter(b) || IsDigit(b) || b == DOT || b == 0x5F || b == 0x25 || b == 0x2B || b == 0x2D
  }

  /** `[a-zA-Z0-9.-]`: a byte of the domain part. */
  predicate IsDomainByte(b: byte) {
    IsLetter(b) || IsDigit(b) || b == DOT || b == 0x2D
  }

  /** `t[start..end]` matches the pattern, with its `@` at `at` and the dot
      before the final letters at `dot`. */
  predicate MatchAt(t: seq<byte>, start: int, at: int, dot: int, end: int) {
    && 0 <= start < at
    && at + 1 < dot
    && dot + 2 < end <= |t|
    && (forall p | start <= p < at :: IsLocalByte(t[p]))
    && t[at] == AT
    && (forall p | at < p < dot :: IsDomainByte(t[p]))
    && t[dot] == DOT
    && (forall p | dot < p < end :: IsLetter(t[p]))
  }

  /** The regex's `is_match`: some substring of `t` matches the pattern. */
  predicate ContainsEmail(t: seq<byte>) {
    exists start, at, dot, end | 0 <= start <= at <= dot <= end <= |t| :: MatchAt(t, start, at, dot, end)
  }

  /** An `@` at `a` with a local byte before it, and domain bytes only
      from `a + 1` up to `k`. */
  predicate Anchored(t: seq<byte>, a: int, k: int) {
    && 1 <= a < k <= |t|
    && t[a] == AT
    && IsLocalByte(t[a - 1])
    && forall p | a < p < k :: IsDomainByte(t[p])
  }

  /** The shortest match with its `@` at `a` and its dot at `d`: one local
      byte, the domain bytes between, the dot and two letters. */
  predicate Core(t: seq<byte>, a: int, d: int) {
    && Anchored(t, a, d)
    && a + 1 < d
    && d + 2 < |t|
    && t[d] == DOT
    && IsLetter(t[d + 1])
    && IsLetter(t[d + 2])
  }

  /** A match exists exactly when a shortest one does: `+` and `{2,}` only
      ever need their minimum. */
  lemma ContainsEmailIffCore(t: seq<byte>)
    ensures ContainsEmail(t) <==> exists a, d | 0 <= a < d < |t| :: Core(t, a, d)
  {
    if ContainsEmail(t) {
      var start, at, dot, end :| 0 <= start <= at <= dot <= end <= |t| && MatchAt(t, start, at, dot, end);
      assert IsLocalByte(t[at - 1]);
      assert Core(t, at, dot);
    }
    if exists a, d | 0 <= a < d < |t| :: Core(t, a, d) {
      var a, d :| 0 <= a < d < |t| && Core(t, a, d);
      assert MatchAt(t, a - 1, a, d, d + 3);
    }
  }

  /** One left-to-right pass deciding the pattern: `anchor` remembers the
      only `@` from which the domain bytes still run up to the current
      position (an `@` is not a domain byte, so a later one ends the run of
      every earlier one). */
  method Scan(t: seq<byte>) returns (found: bool)
    ensures found <==> ContainsEmail(t)
  {
    ContainsEmailIffCore(t);
    var anchor := -1;
    var k := 0;
    while k < |t|
      invariant 0 <= k <= |t|
      invariant -1 <= anchor < k
      invariant anchor >= 0 ==> Anchored(t, anchor, k)
      invariant forall a | 0 <= a < k :: Anchored(t, a, k) ==> a == anchor
      invariant forall a, d | 0 <= a < d < k :: !Core(t, a, d)
    {
      if t[k] == DOT && k + 2 < |t| && IsLetter(t[k + 1]) && IsLetter(t[k + 2])
         && anchor >= 0 && anchor + 1 < k
      {
        assert Core(t, anchor, k);
        return true;
      }
      if t[k] == AT {
        anchor := if k >= 1 && IsLocalByte(t[k - 1]) then k else -1;
      } else if !IsDomainByte(t[k]) {
        anchor := -1;
      }
      var next := k + 1;
      forall a | 0 <= a < next
        ensures Anchored(t, a, next) ==> a == anchor
      {
        if a < k && Anchored(t, a, next) {
          assert Anchored(t, a, k);
          assert IsDomainByte(t[k]);
        }
      }
      k := next;
    }
    return false;
  }
}
