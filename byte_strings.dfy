/**
 * Byte-level versions of the two string queries the key validator uses,
 * `str::starts_with` and `str::contains` applied to an ASCII pattern.
 * For an ASCII pattern both agree with the plain byte tests below on the
 * UTF-8 bytes of the string.
 */
module ByteStrings {

  /** `s` begins with the bytes of `p`. */
  predicate StartsWith(s: seq<bv8>, p: seq<bv8>)
  {
    |p| <= |s| && s[..|p|] == p
  }

  /** `p` occurs in `s` at offset `k`. */
  predicate OccursAt(s: seq<bv8>, p: seq<bv8>, k: int)
  {
    0 <= k && k + |p| <= |s| && s[k..k + |p|] == p
  }

  /**
   * `p` occurs in `s` as a contiguous run of bytes, found by sliding a
   * window from the front of `s`, as a naive substring search does.
   */
  function Contains(s: seq<bv8>, p: seq<bv8>): (r: bool)
    ensures r <==> exists k :: OccursAt(s, p, k)
    decreases |s|
  {
    if |s| < |p| then
      assert forall k :: !OccursAt(s, p, k);
      false
    else if s[..|p|] == p then
      assert OccursAt(s, p, 0);
      true
    else
      var rest := Contains(s[1..], p);
      assert forall k :: OccursAt(s[1..], p, k) <==> OccursAt(s, p, k + 1) by {
        forall k ensures OccursAt(s[1..], p, k) <==> OccursAt(s, p, k + 1) {
          if 0 <= k && k + |p| <= |s| - 1 {
            assert s[1..][k..k + |p|] == s[k + 1..k + 1 + |p|];
          }
        }
      }
      assert !OccursAt(s, p, 0);
      assert rest ==> exists k :: OccursAt(s, p, k) by {
        if rest {
          var k :| OccursAt(s[1..], p, k);
          assert OccursAt(s, p, k + 1);
        }
      }
      assert (exists k :: OccursAt(s, p, k)) ==> rest by {
        if exists k :: OccursAt(s, p, k) {
          var k :| OccursAt(s, p, k);
          assert k != 0;
          assert OccursAt(s[1..], p, k - 1);
        }
      }
      rest
  }
}
