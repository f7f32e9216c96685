/**
 * The email pattern of the signup validator,
 *   ^[a-zA-Z0-9._%+\-]+@[a-zA-Z0-9.\-]+\.[a-zA-Z]{2,}$
 * written as a predicate on bytes (MatchesEmailPattern) and as a scan
 * (IsValidEmail) proved to agree with it.
 */
module Email {
  import opened Bytes

  predicate IsAsciiLetter(b: Byte)
  {
    ('a' <= b <= 'z') || ('A' <= b <= 'Z')
  }

  predicate IsDigit(b: Byte)
  {
    '0' <= b <= '9'
  }

  /** The class [a-zA-Z0-9._%+\-] of the local part. */
  predicate IsLocalChar(b: Byte)
  {
    IsAsciiLetter(b) || IsDigit(b) || b == '.' || b == '_' || b == '%' || b == '+' || b == '-'
  }

  /** The class [a-zA-Z0-9.\-] of the domain. */
  predicate IsDomainChar(b: Byte)
  {
    IsAsciiLetter(b) || IsDigit(b) || b == '.' || b == '-'
  }

  /**
   * s matches the pattern with its '@' at index `at` and the dot before the
   * final letters at index `dot`: a non-empty local part, '@', a non-empty
   * run of domain bytes, '.', and two or more letters up to the end.
   */
  ghost predicate EmailShape(s: Bytes, at: nat, dot: nat)
  {
    && 0 < at && at + 1 < dot && dot + 2 < |s|
    && (forall i :: 0 <= i < at ==> IsLocalChar(s[i]))
    && s[at] == '@'
    && (forall i :: at < i < dot ==> IsDomainChar(s[i]))
    && s[dot] == '.'
    && (forall i :: dot < i < |s| ==> IsAsciiLetter(s[i]))
  }

  /** The anchored regular expression matches s. */
  ghost predicate MatchesEmailPattern(s: Bytes)
  {
    exists at: nat, dot: nat :: EmailShape(s, at, dot)
  }

  /** Length of the longest prefix of s made of local-part bytes. */
  function LocalSpan(s: Bytes): (k: nat)
    ensures k <= |s|
    ensures forall i :: 0 <= i < k ==> IsLocalChar(s[i])
    ensures k < |s| ==> !IsLocalChar(s[k])
  {
    if s == [] || !IsLocalChar(s[0]) then 0 else 1 + LocalSpan(s[1..])
  }

  /** Length of the longest suffix of s made of ASCII letters. */
  function LetterSuffix(s: Bytes): (t: nat)
    ensures t <= |s|
    ensures forall i :: |s| - t <= i < |s| ==> IsAsciiLetter(s[i])
    ensures t < |s| ==> !IsAsciiLetter(s[|s| - t - 1])
  {
    if s == [] || !IsAsciiLetter(s[|s| - 1]) then 0 else 1 + LetterSuffix(s[..|s| - 1])
  }

  /** The part after '@': domain bytes, then '.', then at least two letters to the end. */
  function DomainMatches(d: Bytes): (b: bool)
    ensures b <==> exists dot: nat :: DomainShape(d, dot)
  {
    var t := LetterSuffix(d);
    var dot := |d| - t - 1;
    var b := 2 <= t && 1 <= dot && d[dot] == '.' && forall i :: 0 <= i < dot ==> IsDomainChar(d[i]);
    assert b ==> DomainShape(d, dot);
    assert !b ==> forall p: nat :: !DomainShape(d, p) by {
      forall p: nat | DomainShape(d, p) ensures b {
        // letters run from p + 1 to the end and d[p] is not a letter
        assert t == |d| - p - 1;
      }
    }
    b
  }

  ghost predicate DomainShape(d: Bytes, dot: nat)
  {
    && 1 <= dot && dot + 2 < |d|
    && (forall i :: 0 <= i < dot ==> IsDomainChar(d[i]))
    && d[dot] == '.'
    && (forall i :: dot < i < |d| ==> IsAsciiLetter(d[i]))
  }

  /** emailRegex.MatchString: the scanner accepts exactly the strings the pattern matches. */
  function IsValidEmail(s: Bytes): (b: bool)
    ensures b <==> MatchesEmailPattern(s)
  {
    var at := LocalSpan(s);
    var b := 0 < at < |s| && s[at] == '@' && DomainMatches(s[at + 1..]);
    assert b ==> MatchesEmailPattern(s) by {
      if b {
        var d := s[at + 1..];
        var p: nat :| DomainShape(d, p);
        assert forall i :: at < i < at + 1 + p ==> s[i] == d[i - at - 1];
        assert forall i :: at + 1 + p < i < |s| ==> s[i] == d[i - at - 1];
        assert EmailShape(s, at, at + 1 + p);
      }
    }
    assert MatchesEmailPattern(s) ==> b by {
      if MatchesEmailPattern(s) {
        var a: nat, p: nat :| EmailShape(s, a, p);
        // '@' is not a local-part byte, so the local run stops exactly at a
        assert at == a;
        var d := s[at + 1..];
        assert DomainShape(d, p - at - 1) by {
          forall i | 0 <= i < p - at - 1 ensures IsDomainChar(d[i]) {
            assert d[i] == s[i + at + 1];
          }
          forall i | p - at - 1 < i < |d| ensures IsAsciiLetter(d[i]) {
            assert d[i] == s[i + at + 1];
          }
        }
      }
    }
    b
  }

  /**
   * What every accepted address looks like: exactly one '@', with something
   * before it, and a final '.' followed by at least two ASCII letters.
   */
  lemma AcceptedEmailShape(s: Bytes)
    requires IsValidEmail(s)
    ensures exists at :: 0 < at < |s| && s[at] == '@' && forall i :: 0 <= i < |s| && s[i] == '@' ==> i == at
    ensures exists dot :: 0 <= dot < |s| - 2 && s[dot] == '.' && forall i :: dot < i < |s| ==> IsAsciiLetter(s[i])
  {
    var a: nat, p: nat :| EmailShape(s, a, p);
    assert forall i :: 0 <= i < |s| && s[i] == '@' ==> i == a;
  }

  /** A string with no '@' is rejected. */
  lemma NoAtRejected(s: Bytes)
    requires forall i :: 0 <= i < |s| ==> s[i] != '@'
    ensures !IsValidEmail(s)
  {
    if IsValidEmail(s) {
      AcceptedEmailShape(s);
      assert false;
    }
  }
}
