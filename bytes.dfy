/**
 * Byte strings and whitespace trimming.
 *
 * A Go string is a sequence of bytes; `len` counts bytes. Here a byte is a
 * character below 256, so string literals can be written directly and `|s|`
 * is the byte length.
 */
module Bytes {

  type Byte = c: char | c as int < 256
  type Bytes = seq<Byte>

  /** The ASCII white-space bytes that strings.TrimSpace removes: \t \n \v \f \r and space. */
  predicate IsSpace(b: Byte)
  {
    b == ' ' || ('\t' <= b <= '\r')
  }

  ghost predicate AllSpace(s: Bytes)
  {
    forall i :: 0 <= i < |s| ==> IsSpace(s[i])
  }

  /** Neither the first nor the last byte is white space. */
  predicate NoEdgeSpace(s: Bytes)
  {
    s == [] || (!IsSpace(s[0]) && !IsSpace(s[|s| - 1]))
  }

  /**
   * r is the part of s that starts at offset i, with only white space before
   * it and only white space after it.
   */
  ghost predicate TrimmedAt(s: Bytes, r: Bytes, i: nat)
  {
    && i + |r| <= |s| && r == s[i..i + |r|]
    && (forall m :: 0 <= m < i ==> IsSpace(s[m]))
    && (forall m :: i + |r| <= m < |s| ==> IsSpace(s[m]))
  }

  /** Number of white-space bytes at the start of s. */
  function LeadingSpaces(s: Bytes): (k: nat)
    ensures k <= |s|
    ensures forall i :: 0 <= i < k ==> IsSpace(s[i])
    ensures k < |s| ==> !IsSpace(s[k])
  {
    if s == [] || !IsSpace(s[0]) then 0 else 1 + LeadingSpaces(s[1..])
  }

  /** Length of s once its trailing white-space bytes are dropped. */
  function TrailingEnd(s: Bytes): (j: nat)
    ensures j <= |s|
    ensures forall i :: j <= i < |s| ==> IsSpace(s[i])
    ensures 0 < j ==> !IsSpace(s[j - 1])
  {
    if s == [] || !IsSpace(s[|s| - 1]) then |s| else TrailingEnd(s[..|s| - 1])
  }

  /** strings.TrimSpace restricted to ASCII white space. */
  function TrimSpace(s: Bytes): (r: Bytes)
    ensures NoEdgeSpace(r)
    ensures TrimmedAt(s, r, LeadingSpaces(s))
    ensures AllSpace(s) <==> r == []
  {
    var k := LeadingSpaces(s);
    if k == |s| then []
    else
      // s[k] is not white space, so the trailing run starts after it
      var j := TrailingEnd(s);
      assert k < j;
      s[k..j]
  }

  /** The trim is the only infix of s with white space around it and none at its own edges. */
  lemma TrimSpaceUnique(s: Bytes, r: Bytes, i: nat)
    requires TrimmedAt(s, r, i) && NoEdgeSpace(r)
    ensures r == TrimSpace(s)
  {
    if r == [] {
      assert AllSpace(s);
    } else {
      // r starts and ends with a non-space byte, so the leading and trailing runs stop exactly at its ends
      assert s[i] == r[0] && s[i + |r| - 1] == r[|r| - 1];
      assert LeadingSpaces(s) == i;
      assert TrailingEnd(s) == i + |r|;
    }
  }

  /** Trimming twice is trimming once. */
  lemma TrimSpaceIdempotent(s: Bytes)
    ensures TrimSpace(TrimSpace(s)) == TrimSpace(s)
  {
    var r := TrimSpace(s);
    assert r[0..0 + |r|] == r;
    TrimSpaceUnique(r, r, 0);
  }

  /** A string with no white space at either end is its own trim. */
  lemma TrimOfTrimmed(s: Bytes)
    requires NoEdgeSpace(s)
    ensures TrimSpace(s) == s
  {
    assert s[0..0 + |s|] == s;
    TrimSpaceUnique(s, s, 0);
  }

  /** White space added around an already trimmed string is removed again. */
  lemma PaddingIsTrimmed(pre: Bytes, s: Bytes, post: Bytes)
    requires AllSpace(pre) && AllSpace(post) && NoEdgeSpace(s)
    ensures TrimSpace(pre + s + post) == s
  {
    var p := pre + s + post;
    assert p[|pre|..|pre| + |s|] == s;
    assert forall m :: 0 <= m < |pre| ==> p[m] == pre[m];
    assert forall m :: |pre| + |s| <= m < |p| ==> p[m] == post[m - |pre| - |s|];
    TrimSpaceUnique(p, s, |pre|);
  }
}
